/** The service wired to the CSV file, as the command-line program wires it,
    and what a sequence of commands does to the listed records. */
module Tracker {
  import opened Optional
  import opened GoInt
  import opened Domain
  import opened Seqs
  import opened CsvRepo
  import opened Service
  import Calendar

  /** The CSV file as the service's backend. */
  const Csv: Repository<Disk> := Repository(CsvRepo.Save, CsvRepo.FindAll, CsvRepo.DeleteById, CsvRepo.UpdateById)

  /** After a successful add, the list is the old list followed by the new
      expense, under the id the add returned and dated with the given day;
      a day that cannot be stored leaves the list as it was. */
  lemma AddThenList(d: Disk, description: string, amount: Int64, today: Date)
    requires AddExpense(Csv, d, description, amount, today).result.Ok?
    ensures description != "" && amount > 0
    ensures var r := AddExpense(Csv, d, description, amount, today);
      && ListExpenses(Csv, d).result.Ok?
      && ListExpenses(Csv, r.state).result ==
         Ok(ListExpenses(Csv, d).result.value
            + if Calendar.IsStorable(today) then [Expense(r.result.value, today, description, amount)] else [])
  {
    SaveThenFindAll(d, Expense(0, today, description, amount));
  }

  /** The id an add returns is above every listed id and is 1 or one more
      than the largest listed id, unless a listed id is the largest Go int. */
  lemma AddAssignsNextId(d: Disk, description: string, amount: Int64, today: Date)
    requires AddExpense(Csv, d, description, amount, today).result.Ok?
    requires var es := FindAll(d).result.value;
      forall i :: 0 <= i < |es| ==> es[i].id < MaxInt64
    ensures var id := AddExpense(Csv, d, description, amount, today).result.value;
      var es := FindAll(d).result.value;
      && id >= 1
      && (forall i :: 0 <= i < |es| ==> es[i].id < id)
      && (id == 1 || exists i :: 0 <= i < |es| && es[i].id == id - 1)
  {
    NextIdIsMaxPlusOne(FindAll(d).result.value);
  }

  /** After a successful delete, the first row is still the first row, and
      the list holds its record (if it parses) followed by the other records
      except those with the deleted id. So the id disappears from the list
      unless the first row carries it. */
  lemma DeleteThenList(d: Disk, id: Int64)
    requires DeleteExpense(Csv, d, id).result.Ok?
    ensures id > 0
    ensures var after := DeleteExpense(Csv, d, id).state;
      && Rows(after)[0] == Rows(d)[0]
      && ListExpenses(Csv, after).result == Ok(ParseRows([Rows(d)[0]]) + Filter(ParseRows(Rows(d)[1..]), OtherId(id)))
    ensures var first := ParseRow(Rows(d)[0]);
      (first.None? || first.value.id != id) ==>
      var listed := ListExpenses(Csv, DeleteExpense(Csv, d, id).state).result.value;
      forall i :: 0 <= i < |listed| ==> listed[i].id != id
  {
    assert DeleteExpense(Csv, d, id) == DeleteById(d, id);
    var after := DeleteById(d, id).state;
    assert ListExpenses(Csv, after) == FindAll(after);
    CsvRepo.DeleteThenFindAll(d, id);
    CsvRepo.DeleteRemovesId(d, id);
  }

  /** After a successful update, the list shows the first record with that
      id patched with the given fields, in place of every record with that
      id, and every other record as before. The patched record is listed. */
  lemma UpdateThenList(d: Disk, id: Int64, c: Changes)
    requires UpdateExpense(Csv, d, id, c).result.Ok?
    requires c.date.Some? ==> Calendar.IsStorable(c.date.value)
    ensures UpdateExpense(Csv, d, id, c).result.value == id
    ensures var before := FindAll(d).result.value;
      var after := ListExpenses(Csv, UpdateExpense(Csv, d, id, c).state).result.value;
      && FirstWithId(before, id).Some?
      && (forall i :: 0 <= i < |after| && after[i].id == id ==> after[i] == Patch(FirstWithId(before, id).value, c))
      && Patch(FirstWithId(before, id).value, c) in after
      && Filter(after, OtherId(id)) == Filter(before, OtherId(id))
  {
    var found := FindAll(d);
    var before := found.result.value;
    var target := FirstWithId(before, id).value;
    var patched := Patch(target, c);
    assert Calendar.IsStorable(target.date);
    CsvRepo.UpdateThenFindAll(found.state, patched);
    var rows := Rows(found.state);
    assert target in before;
    CsvRepo.ParseRowsExactly(rows);
    var i :| 0 <= i < |rows| && ParseRow(rows[i]) == Some(target);
    CsvRepo.UpdatedKeepsRecord(found.state, patched, i);
  }

  /** On the CSV file, whenever it can be read, the twelve by-month totals
      add up to the total: every listed date has a month in 1..12. */
  lemma MonthlyTotalsAddUpOnCsv(d: Disk)
    requires d.readable
    ensures forall i :: 0 <= i < 12 ==> MonthlyResults(Csv, d)[i].Ok?
    ensures WrappingSum(seq(12, i requires 0 <= i < 12 => MonthlyResults(Csv, d)[i].value))
      == GetTotalAmount(Csv, d).result.value
  {
    MonthlyTotalsAddUp(Csv, d);
  }

  /** A session on an empty file: add "Lunch" 20 and "Dinner" 30, get ids 1
      and 2 and a total of 50. Deleting id 1 then fails, because the first
      row is skipped as a header; deleting id 2 leaves only Lunch; updating
      id 2 to amount 45 keeps Dinner's date and description. */
  lemma LunchDinnerSession(today: Date)
    requires Calendar.IsStorable(today)
    ensures var d0 := Disk(Some([]), true, true);
      var r1 := AddExpense(Csv, d0, "Lunch", 20, today);
      var r2 := AddExpense(Csv, r1.state, "Dinner", 30, today);
      && r1.result == Ok(1)
      && r2.result == Ok(2)
      && GetTotalAmount(Csv, r2.state).result == Ok(50)
      && DeleteExpense(Csv, r2.state, 1) == Reply(r2.state, Err(ExpenseNotFound))
      && ListExpenses(Csv, DeleteExpense(Csv, r2.state, 2).state).result == Ok([Expense(1, today, "Lunch", 20)])
      && UpdateExpense(Csv, r2.state, 2, Changes(None, None, Some(45))).result == Ok(2)
      && ListExpenses(Csv, UpdateExpense(Csv, r2.state, 2, Changes(None, None, Some(45))).state).result
         == Ok([Expense(1, today, "Lunch", 20), Expense(2, today, "Dinner", 45)])
  {
    SessionAdds(today);
    SessionTotal(today);
    SessionDeletes(today);
    SessionUpdate(today);
  }

  function Lunch(today: Date): Expense {
    Expense(1, today, "Lunch", 20)
  }

  function Dinner(today: Date): Expense {
    Expense(2, today, "Dinner", 30)
  }

  /** The file after the two adds. */
  function TwoRows(today: Date): Disk {
    Disk(Some([EncodeRow(Lunch(today)), EncodeRow(Dinner(today))]), true, true)
  }

  lemma SessionAdds(today: Date)
    requires Calendar.IsStorable(today)
    ensures var r1 := AddExpense(Csv, Disk(Some([]), true, true), "Lunch", 20, today);
      && r1.result == Ok(1)
      && AddExpense(Csv, r1.state, "Dinner", 30, today) == Reply(TwoRows(today), Ok(2))
  {
    var row1 := EncodeRow(Lunch(today));
    var d0 := Disk(Some([]), true, true);
    var d1 := Disk(Some([row1]), true, true);
    var r1 := Save(d0, Expense(0, today, "Lunch", 20));
    assert AddExpense(Csv, d0, "Lunch", 20, today) == r1;
    assert ParseRows(Rows(d0)) == [];
    assert NextId([]) == 1;
    assert Rows(d0) + [row1] == [row1];
    assert r1 == Reply(d1, Ok(1));

    var r2 := Save(d1, Expense(0, today, "Dinner", 30));
    assert AddExpense(Csv, d1, "Dinner", 30, today) == r2;
    ParseEncodeRow(Lunch(today));
    assert [row1][1..] == [];
    assert ParseRows(Rows(d1)) == [Lunch(today)];
    assert NextId([Lunch(today)]) == 2 by {
      var es := [Lunch(today)];
      assert es[1..] == [];
      assert NextId(es) == AdvanceId(Wrap(2), es[1..]);
    }
    assert Expense(0, today, "Dinner", 30).(id := 2) == Dinner(today);
    assert Rows(d1) + [EncodeRow(Dinner(today))] == Rows(TwoRows(today));
    assert r2 == Reply(TwoRows(today), Ok(2));
  }

  lemma SessionRecords(today: Date)
    requires Calendar.IsStorable(today)
    ensures ParseRows(Rows(TwoRows(today))) == [Lunch(today), Dinner(today)]
  {
    var row1, row2 := EncodeRow(Lunch(today)), EncodeRow(Dinner(today));
    ParseEncodeRow(Lunch(today));
    ParseEncodeRow(Dinner(today));
    ParseRowsAppend([row1], [row2]);
    assert [row1][1..] == [] && [row2][1..] == [];
    assert ParseRows([row1]) == [Lunch(today)];
    assert ParseRows([row2]) == [Dinner(today)];
  }

  lemma SessionTotal(today: Date)
    requires Calendar.IsStorable(today)
    ensures GetTotalAmount(Csv, TwoRows(today)).result == Ok(50)
  {
    SessionRecords(today);
    var es := [Lunch(today), Dinner(today)];
    assert es[..1] == [Lunch(today)];
    assert [Lunch(today)][..0] == [];
    assert Sum([Lunch(today)]) == 20;
    assert Sum(es) == 50;
  }

  lemma SessionDeletes(today: Date)
    requires Calendar.IsStorable(today)
    ensures DeleteExpense(Csv, TwoRows(today), 1) == Reply(TwoRows(today), Err(ExpenseNotFound))
    ensures ListExpenses(Csv, DeleteExpense(Csv, TwoRows(today), 2).state).result == Ok([Lunch(today)])
  {
    var row1, row2 := EncodeRow(Lunch(today)), EncodeRow(Dinner(today));
    var rows := [row1, row2];
    assert Rows(TwoRows(today)) == rows;
    AtoiItoa(1);
    AtoiItoa(2);
    assert Atoi(rows[1][0]) == Some(2);
    assert rows[1..] == [row2];
    assert !CarriedAfterHeader(rows, 1);
    assert CarriedAfterHeader(rows, 2);
    assert Filter([row2], Survives(2)) == [];
    assert Rows(DeleteById(TwoRows(today), 2).state) == [row1];
    ParseEncodeRow(Lunch(today));
    assert [row1][1..] == [];
    assert ParseRows([row1]) == [Lunch(today)];
  }

  lemma SessionUpdate(today: Date)
    requires Calendar.IsStorable(today)
    ensures var r := UpdateExpense(Csv, TwoRows(today), 2, Changes(None, None, Some(45)));
      && r.result == Ok(2)
      && ListExpenses(Csv, r.state).result == Ok([Lunch(today), Expense(2, today, "Dinner", 45)])
  {
    var dinner45 := Expense(2, today, "Dinner", 45);
    var updated := SessionRewrite(today);
    SessionRecords(today);
    var c := Changes(None, None, Some(45));
    assert FirstWithId([Lunch(today), Dinner(today)], 2) == Some(Dinner(today));
    assert Patch(Dinner(today), c) == dinner45;
    assert UpdateExpense(Csv, TwoRows(today), 2, c) == Reply(TwoRows(today).(file := Some(updated)), Ok(2));
    SessionUpdatedRecords(today);
  }

  lemma SessionRewrite(today: Date) returns (updated: seq<Row>)
    requires Calendar.IsStorable(today)
    ensures updated == [EncodeRow(Lunch(today)), EncodeRow(Expense(2, today, "Dinner", 45))]
    ensures UpdateById(TwoRows(today), Expense(2, today, "Dinner", 45)) == Reply(TwoRows(today).(file := Some(updated)), Ok(()))
  {
    var dinner45 := Expense(2, today, "Dinner", 45);
    updated := [EncodeRow(Lunch(today)), EncodeRow(dinner45)];
    var rows := Rows(TwoRows(today));
    AtoiItoa(1);
    AtoiItoa(2);
    assert Atoi(rows[0][0]) == Some(1) && Atoi(rows[1][0]) == Some(2);
    var r := UpdateById(TwoRows(today), dinner45);
    assert r.result.Ok?;
    assert Rows(r.state) == updated;
  }

  lemma SessionUpdatedRecords(today: Date)
    requires Calendar.IsStorable(today)
    ensures var dinner45 := Expense(2, today, "Dinner", 45);
      ParseRows([EncodeRow(Lunch(today)), EncodeRow(dinner45)]) == [Lunch(today), dinner45]
  {
    var dinner45 := Expense(2, today, "Dinner", 45);
    var row1, row2 := EncodeRow(Lunch(today)), EncodeRow(dinner45);
    ParseEncodeRow(Lunch(today));
    ParseEncodeRow(dinner45);
    ParseRowsAppend([row1], [row2]);
    assert [row1][1..] == [] && [row2][1..] == [];
    assert ParseRows([row1]) == [Lunch(today)];
    assert ParseRows([row2]) == [dinner45];
  }
}
