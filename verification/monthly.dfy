/** `organize_monthly_data`: spreads (year, month, count) rows over one
    twelve-slot list per requested year. Every row's year and month go
    through `int()` first, so a NULL year or month (the group of rows without
    a date) raises `TypeError`. Slots start at 0, a later row for the same
    slot overwrites an earlier one, rows of other years are skipped, and the
    month becomes a Python list index, so months 0 down to -11 land on the
    slots counted from the end and any other out-of-range month raises
    `IndexError`. */
module Monthly {
  import opened Base

  /** One row of the monthly query: `ano` and `mes` are `EXTRACT(...)::integer`,
      NULL for rows without a date. */
  datatype MonthRow = MonthRow(ano: Option<int>, mes: Option<int>, atendimentos: real)

  /** The slot `lst[i]` reaches in a twelve-element list, if any. */
  function Slot(i: int): (s: Option<nat>)
    ensures s.Some? ==> s.value < 12 && (s.value - i) % 12 == 0
    ensures s.None? <==> (i < -12 || i >= 12)
  {
    if 0 <= i < 12 then Some(i) else if -12 <= i < 0 then Some(i + 12) else None
  }

  /** A row on which `int(row['ano'])` or `int(row['mes'])` fails. */
  predicate NullField(row: MonthRow)
  {
    row.ano.None? || row.mes.None?
  }

  /** A row that raises: a NULL field, or a requested year whose month
      indexes outside the list. */
  predicate BadRow(row: MonthRow, years: set<int>)
  {
    NullField(row) || (row.ano.value in years && Slot(row.mes.value - 1).None?)
  }

  /** The exception a bad row raises. */
  function RowError(row: MonthRow): PyError
  {
    if NullField(row) then TypeError else IndexError
  }

  /** The value slot `m` of year `y` ends with: the last row of that year
      landing on it, or 0 when none does. */
  function LastWrite(rows: seq<MonthRow>, y: int, m: nat): real
  {
    if |rows| == 0 then 0.0
    else
      var last := rows[|rows| - 1];
      if last.ano == Some(y) && last.mes.Some? && Slot(last.mes.value - 1) == Some(m) then last.atendimentos
      else LastWrite(rows[..|rows| - 1], y, m)
  }

  method OrganizeMonthlyData(rows: seq<MonthRow>, years: seq<int>) returns (r: Outcome<map<int, seq<real>>>)
    ensures r.Raise? <==> exists k :: 0 <= k < |rows| && BadRow(rows[k], Elems(years))
    ensures r.Raise? ==> exists k :: (0 <= k < |rows| && BadRow(rows[k], Elems(years))
              && (forall j :: 0 <= j < k ==> !BadRow(rows[j], Elems(years)))
              && r.error == RowError(rows[k]))
    ensures r.Ok? ==> r.value.Keys == Elems(years)
    ensures r.Ok? ==> forall y :: y in r.value ==>
              |r.value[y]| == 12 && forall m :: 0 <= m < 12 ==> r.value[y][m] == LastWrite(rows, y, m)
  {
    var data: map<int, seq<real>> := map y | y in Elems(years) :: Repeat(0.0, 12);
    for k := 0 to |rows|
      invariant data.Keys == Elems(years)
      invariant forall j :: 0 <= j < k ==> !BadRow(rows[j], Elems(years))
      invariant forall y :: y in data ==>
                  |data[y]| == 12 && forall m :: 0 <= m < 12 ==> data[y][m] == LastWrite(rows[..k], y, m)
    {
      assert rows[..k + 1][..k] == rows[..k];
      var row := rows[k];
      if row.ano.None? || row.mes.None? {
        assert BadRow(rows[k], Elems(years));
        return Raise(TypeError);
      }
      var year := row.ano.value;
      if year in data {
        var slot := Slot(row.mes.value - 1);
        if slot.None? {
          assert BadRow(rows[k], Elems(years));
          return Raise(IndexError);
        }
        data := data[year := data[year][slot.value := row.atendimentos]];
      }
    }
    assert rows[..|rows|] == rows;
    return Ok(data);
  }

  /** Months 1 to 12 fill slots 0 to 11; months 0 down to -11 wrap onto the
      slots counted from the end (0 is December); others have no slot. */
  lemma MonthSlots(mes: int)
    ensures 1 <= mes <= 12 ==> Slot(mes - 1) == Some(mes - 1)
    ensures -11 <= mes <= 0 ==> Slot(mes - 1) == Some(mes + 11)
    ensures (mes < -11 || mes > 12) ==> Slot(mes - 1).None?
  {
  }

  /** A row of a year that was not requested never changes a requested year's
      slots. */
  lemma {:induction false} OtherYearsIgnored(rows: seq<MonthRow>, row: MonthRow, y: int, m: nat)
    requires row.ano != Some(y)
    ensures LastWrite(rows + [row], y, m) == LastWrite(rows, y, m)
  {
    assert (rows + [row])[..|rows|] == rows;
  }

  /** Rows for a slot overwrite each other: only the last one counts. */
  lemma {:induction false} LastRowWins(rows: seq<MonthRow>, row: MonthRow, m: nat)
    requires row.ano.Some? && row.mes.Some? && Slot(row.mes.value - 1) == Some(m)
    ensures LastWrite(rows + [row], row.ano.value, m) == row.atendimentos
  {
  }
}
