/** The CSV-file implementation of the expense repository.

    The file is modelled as the sequence of records the CSV reader yields,
    one row per line and one string per field; quoting, escaping and the
    reader's field-count rule are folded into the disk's `readable` flag.
    Every operation is a function from the disk before to the disk after,
    paired with what the Go method returns. */
module CsvRepo {
  import opened Optional
  import opened GoInt
  import opened Domain
  import opened Seqs
  import Calendar

  /** A CSV record: the reader never yields one with no field at all. */
  type Row = r: seq<string> | |r| > 0 witness [""]

  /** The expense file and whether the operating system lets the process
      read and write it. `file == None` means no file exists yet. */
  datatype Disk = Disk(file: Option<seq<Row>>, readable: bool, writable: bool)

  /** The rows on disk; a missing file holds none. */
  function Rows(d: Disk): seq<Row> {
    d.file.GetOr([])
  }

  // ---------------------------------------------------------------------
  // Row codec

  /** The four fields Save and UpdateByID write: id, `DD/MM/YYYY`,
      description, amount. */
  function EncodeRow(e: Expense): (row: Row)
    ensures |row| == 4 && row[2] == e.description
  {
    [Itoa(e.id), Calendar.Format(e.date), e.description, Itoa(e.amount)]
  }

  /** One iteration of FindAll's loop: `None` for a row it skips (fewer than
      four fields, a bad id, a bad date or a bad amount). Fields after the
      fourth are ignored. */
  function ParseRow(row: Row): (r: Option<Expense>)
    ensures r.Some? <==>
      |row| >= 4 && Atoi(row[0]).Some? && Calendar.Parse(row[1]).Some? && Atoi(row[3]).Some?
    ensures r.Some? ==> Calendar.IsStorable(r.value.date) && Calendar.Parse(row[1]) == Some(r.value.date)
    ensures r.Some? ==> Atoi(row[0]) == Some(r.value.id) && Atoi(row[3]) == Some(r.value.amount)
    ensures r.Some? ==> r.value.description == row[2]
  {
    if |row| < 4 then None
    else
      match (Atoi(row[0]), Calendar.Parse(row[1]), Atoi(row[3]))
      case (Some(id), Some(date), Some(amount)) =>
        Calendar.FormatParse(row[1], date);
        Some(Expense(id, date, row[2], amount))
      case _ => None
  }

  /** A row written for `e` is read back as `e` exactly when its day is
      storable; otherwise FindAll skips it. */
  lemma ParseEncodeRow(e: Expense)
    ensures ParseRow(EncodeRow(e)) == if Calendar.IsStorable(e.date) then Some(e) else None
  {
    AtoiItoa(e.id);
    AtoiItoa(e.amount);
    Calendar.ParseFormatOnlyStorable(e.date);
    if Calendar.IsStorable(e.date) {
      Calendar.ParseFormat(e.date);
    }
  }

  // ---------------------------------------------------------------------
  // FindAll

  /** FindAll's loop: the records of the rows that parse, in file order. */
  function ParseRows(rows: seq<Row>): (es: seq<Expense>)
    ensures |es| <= |rows|
    ensures forall i :: 0 <= i < |es| ==> Calendar.IsStorable(es[i].date)
  {
    if rows == [] then []
    else
      (match ParseRow(rows[0]) case Some(e) => [e] case None => []) + ParseRows(rows[1..])
  }

  predicate Parses(row: Row) {
    ParseRow(row).Some?
  }

  lemma {:induction false} ParseRowsAppend(a: seq<Row>, b: seq<Row>)
    ensures ParseRows(a + b) == ParseRows(a) + ParseRows(b)
  {
    if a == [] {
      assert a + b == b;
    } else {
      assert (a + b)[1..] == a[1..] + b;
      assert ParseRows(a + b)
        == (match ParseRow(a[0]) case Some(e) => [e] case None => []) + ParseRows((a + b)[1..]);
      ParseRowsAppend(a[1..], b);
    }
  }

  /** FindAll yields one record per row that parses and nothing else: a
      record is listed exactly when some row parses to it, and there are as
      many records as parsing rows. */
  lemma {:induction false} ParseRowsExactly(rows: seq<Row>)
    ensures |ParseRows(rows)| == |Filter(rows, Parses)|
    ensures forall e :: e in ParseRows(rows) <==> exists i :: 0 <= i < |rows| && ParseRow(rows[i]) == Some(e)
  {
    if rows != [] {
      ParseRowsExactly(rows[1..]);
      forall e | (exists i :: 0 <= i < |rows| && ParseRow(rows[i]) == Some(e))
        ensures e in ParseRows(rows)
      {
        var i :| 0 <= i < |rows| && ParseRow(rows[i]) == Some(e);
        if i > 0 {
          assert rows[1..][i - 1] == rows[i];
        }
      }
      forall e | e in ParseRows(rows)
        ensures exists i :: 0 <= i < |rows| && ParseRow(rows[i]) == Some(e)
      {
        if e !in ParseRows(rows[1..]) {
          assert ParseRow(rows[0]) == Some(e);
        } else {
          var i :| 0 <= i < |rows[1..]| && ParseRow(rows[1..][i]) == Some(e);
          assert rows[i + 1] == rows[1..][i];
        }
      }
    }
  }

  /** When every row parses, FindAll returns their records one for one. */
  lemma {:induction false} ParseRowsAllValid(rows: seq<Row>)
    requires forall i :: 0 <= i < |rows| ==> ParseRow(rows[i]).Some?
    ensures |ParseRows(rows)| == |rows|
    ensures forall i :: 0 <= i < |rows| ==> Some(ParseRows(rows)[i]) == ParseRow(rows[i])
  {
    if rows != [] {
      ParseRowsAllValid(rows[1..]);
    }
  }

  /** `FindAll`: opening with O_CREATE makes a missing file exist and read as
      empty; a failure to open or read aborts, while malformed rows are only
      skipped. */
  function FindAll(d: Disk): (r: Reply<Disk, seq<Expense>>)
    ensures r.result.Ok? <==> d.readable
    ensures r.result.Err? ==> r == Reply(d, Err(IoFailure))
    ensures r.result.Ok? ==> r.state == d.(file := Some(Rows(d)))
    ensures r.result.Ok? ==> r.result.value == ParseRows(Rows(d))
    ensures r.result.Ok? ==> |r.result.value| <= |Rows(d)|
  {
    if !d.readable then Reply(d, Err(IoFailure))
    else
      match d.file
      case None => Reply(d.(file := Some([])), Ok([]))
      case Some(rows) => Reply(d, Ok(ParseRows(rows)))
  }

  /** Reading twice in a row reads the same records. */
  lemma FindAllIdempotent(d: Disk)
    ensures FindAll(FindAll(d).state) == FindAll(d)
  {
  }

  // ---------------------------------------------------------------------
  // Save

  /** Save's id loop as written: start at 1 and, whenever the running value
      is not above a record's id, move to that id plus one, with Go's
      wrap-around on the increment. */
  function AdvanceId(next: Int64, es: seq<Expense>): Int64
    decreases |es|
  {
    if es == [] then next
    else AdvanceId(if next <= es[0].id then Wrap(es[0].id as int + 1) else next, es[1..])
  }

  function NextId(es: seq<Expense>): Int64 {
    AdvanceId(1, es)
  }

  lemma {:induction false} AdvanceIdBounds(next: Int64, es: seq<Expense>)
    decreases |es|
    requires next >= 1
    requires forall i :: 0 <= i < |es| ==> es[i].id < MaxInt64
    ensures AdvanceId(next, es) >= next
    ensures forall i :: 0 <= i < |es| ==> es[i].id < AdvanceId(next, es)
    ensures AdvanceId(next, es) == next || exists i :: 0 <= i < |es| && es[i].id == AdvanceId(next, es) - 1
  {
    if es != [] {
      var step: Int64 := if next <= es[0].id then Wrap(es[0].id as int + 1) else next;
      AdvanceIdBounds(step, es[1..]);
      var r := AdvanceId(next, es);
      assert r == AdvanceId(step, es[1..]);
      forall i | 0 <= i < |es|
        ensures es[i].id < r
      {
        if i > 0 {
          assert es[i] == es[1..][i - 1];
        }
      }
      if r != next && r != step {
        var j :| 0 <= j < |es[1..]| && es[1..][j].id == r - 1;
        assert es[j + 1].id == r - 1;
      }
    }
  }

  /** The id Save assigns, when no stored id is the largest Go int: it is at
      least 1, above every listed id, and either 1 or one more than a listed
      id, i.e. max(1, largest id + 1). */
  lemma NextIdIsMaxPlusOne(es: seq<Expense>)
    requires forall i :: 0 <= i < |es| ==> es[i].id < MaxInt64
    ensures NextId(es) >= 1
    ensures forall i :: 0 <= i < |es| ==> es[i].id < NextId(es)
    ensures NextId(es) == 1 || exists i :: 0 <= i < |es| && es[i].id == NextId(es) - 1
  {
    AdvanceIdBounds(1, es);
  }

  /** Once the running value meets an id equal to the largest Go int, the
      increment wraps to the smallest one; so when the last listed record
      carries that id, the loop ends on the smallest Go int. */
  lemma {:induction false} AdvanceIdWrapsAtLast(next: Int64, es: seq<Expense>)
    decreases |es|
    requires es != [] && es[|es| - 1].id == MaxInt64
    ensures AdvanceId(next, es) == MinInt64
  {
    var step: Int64 := if next <= es[0].id then Wrap(es[0].id as int + 1) else next;
    assert AdvanceId(next, es) == AdvanceId(step, es[1..]);
    if |es| == 1 {
      assert es[1..] == [];
      assert step == Wrap(MaxInt64 + 1) == MinInt64;
    } else {
      assert es[1..][|es[1..]| - 1] == es[|es| - 1];
      AdvanceIdWrapsAtLast(step, es[1..]);
    }
  }

  /** When the last listed record carries the largest Go int as its id,
      Save hands out the smallest Go int. */
  lemma NextIdWrapsAtMax(es: seq<Expense>)
    requires es != [] && es[|es| - 1].id == MaxInt64
    ensures NextId(es) == MinInt64
  {
    AdvanceIdWrapsAtLast(1, es);
  }

  /** After the wrap the loop starts over from the smallest Go int, so a
      later, smaller id sets the result: with ids 11, the largest Go int
      and 10 in that order, Save hands out 11, which is already in use. */
  lemma NextIdAfterWrapReusesId(date: Date)
    ensures var es := [Expense(11, date, "", 1), Expense(MaxInt64, date, "", 1), Expense(10, date, "", 1)];
      NextId(es) == 11 && es[0].id == 11
  {
    var es := [Expense(11, date, "", 1), Expense(MaxInt64, date, "", 1), Expense(10, date, "", 1)];
    assert es[1..][1..][1..] == [];
    assert AdvanceId(1, es) == AdvanceId(12, es[1..]);
    assert Wrap(MaxInt64 + 1) == MinInt64;
    assert AdvanceId(12, es[1..]) == AdvanceId(MinInt64, es[1..][1..]);
    assert AdvanceId(MinInt64, es[1..][1..]) == AdvanceId(11, es[1..][1..][1..]);
  }

  /** `Save`: list what is stored, choose the next id, append one row. The
      id of `e` is ignored; the row carries the chosen id. */
  function Save(d: Disk, e: Expense): (r: Reply<Disk, Int64>)
    ensures r.result.Ok? <==> d.readable && d.writable
    ensures r.result.Ok? ==> r.state.file == Some(Rows(d) + [EncodeRow(e.(id := r.result.value))])
    ensures r.result.Ok? ==> r.result.value == NextId(ParseRows(Rows(d)))
    ensures r.result.Err? ==> r.result.error == IoFailure && Rows(r.state) == Rows(d)
    ensures r.state.readable == d.readable && r.state.writable == d.writable
  {
    var found := FindAll(d);
    match found.result
    case Err(err) => Reply(found.state, Err(err))
    case Ok(es) =>
      var id := NextId(es);
      if !found.state.writable then Reply(found.state, Err(IoFailure))
      else Reply(found.state.(file := Some(Rows(found.state) + [EncodeRow(e.(id := id))])), Ok(id))
  }

  /** Saving then listing: the listed records are the old ones followed by
      the saved expense under its new id, provided its day is storable;
      otherwise the row is written but never listed. */
  lemma SaveThenFindAll(d: Disk, e: Expense)
    requires Save(d, e).result.Ok?
    ensures var r := Save(d, e);
      FindAll(r.state).result.Ok? &&
      FindAll(r.state).result.value ==
        FindAll(d).result.value
        + (if Calendar.IsStorable(e.date) then [e.(id := r.result.value)] else [])
  {
    var r := Save(d, e);
    ParseRowsAppend(Rows(d), [EncodeRow(e.(id := r.result.value))]);
    ParseEncodeRow(e.(id := r.result.value));
  }

  // ---------------------------------------------------------------------
  // DeleteByID

  /** The rows after row 0 that DeleteByID writes back: those whose id
      parses and differs from `id`. */
  function Survives(id: Int64): Row -> bool {
    (row: Row) => Atoi(row[0]).Some? && Atoi(row[0]).value != id
  }

  /** DeleteByID's loop over the rows after row 0: the rows it keeps, and
      whether any row carried `id`. */
  function Sweep(rows: seq<Row>, id: Int64): (r: (seq<Row>, bool))
    ensures r.0 == Filter(rows, Survives(id))
    ensures r.1 <==> exists i :: 0 <= i < |rows| && Atoi(rows[i][0]) == Some(id)
  {
    if rows == [] then ([], false)
    else
      var rest := Sweep(rows[1..], id);
      assert forall i :: 1 <= i < |rows| ==> rows[i] == rows[1..][i - 1];
      match Atoi(rows[0][0])
      case None => rest
      case Some(v) => if v == id then (rest.0, true) else ([rows[0]] + rest.0, rest.1)
  }

  /** Some row after row 0 has an id field that parses to `id`, whether or
      not the rest of that row parses. */
  predicate CarriedAfterHeader(rows: seq<Row>, id: Int64) {
    exists i :: 1 <= i < |rows| && Atoi(rows[i][0]) == Some(id)
  }

  /** `DeleteByID`: row 0 is kept as a header without looking at its id,
      so a file of at most one row has nothing to delete. */
  function DeleteById(d: Disk, id: Int64): (r: Reply<Disk, ()>)
    ensures d.file.None? ==> r == Reply(d, Err(ExpenseFileNotFound))
    ensures d.file.Some? && d.readable && |Rows(d)| <= 1 ==> r == Reply(d, Err(NoExpensesToDelete))
    ensures d.file.Some? && d.readable && |Rows(d)| > 1 && !CarriedAfterHeader(Rows(d), id) ==> r == Reply(d, Err(ExpenseNotFound))
    ensures d.file.Some? && !d.readable ==> r == Reply(d, Err(IoFailure))
    ensures d.file.Some? && d.readable && !d.writable && CarriedAfterHeader(Rows(d), id) ==> r == Reply(d, Err(IoFailure))
    ensures r.result.Err? ==> r.state == d
    ensures r.result.Ok? <==> d.file.Some? && d.readable && d.writable && CarriedAfterHeader(Rows(d), id)
    ensures r.result.Ok? ==> r.state == d.(file := Some([Rows(d)[0]] + Filter(Rows(d)[1..], Survives(id))))
  {
    match d.file
    case None => Reply(d, Err(ExpenseFileNotFound))
    case Some(rows) =>
      if !d.readable then Reply(d, Err(IoFailure))
      else if |rows| <= 1 then Reply(d, Err(NoExpensesToDelete))
      else
        var (kept, found) := Sweep(rows[1..], id);
        assert found <==> CarriedAfterHeader(rows, id) by {
          assert forall i :: 1 <= i < |rows| ==> rows[i] == rows[1..][i - 1];
        }
        if !found then Reply(d, Err(ExpenseNotFound))
        else if !d.writable then Reply(d, Err(IoFailure))
        else Reply(d.(file := Some([rows[0]] + kept)), Ok(()))
  }

  /** Records other than those with id `id`. */
  function OtherId(id: Int64): Expense -> bool {
    (e: Expense) => e.id != id
  }

  /** Listing what DeleteByID's filter keeps lists the same records as
      dropping the records with that id: rows with a bad id never parsed. */
  lemma {:induction false} ParseSurvivors(rows: seq<Row>, id: Int64)
    ensures ParseRows(Filter(rows, Survives(id))) == Filter(ParseRows(rows), OtherId(id))
  {
    if rows != [] {
      ParseSurvivors(rows[1..], id);
      var head := if Survives(id)(rows[0]) then [rows[0]] else [];
      assert Filter(rows, Survives(id)) == head + Filter(rows[1..], Survives(id));
      ParseRowsAppend(head, Filter(rows[1..], Survives(id)));
      var first := match ParseRow(rows[0]) case Some(e) => [e] case None => [];
      FilterAppend(first, ParseRows(rows[1..]), OtherId(id));
    }
  }

  /** After a successful delete, listing gives row 0's record (if it parses),
      then the later records minus every one with id `id`, in order. */
  lemma DeleteThenFindAll(d: Disk, id: Int64)
    requires DeleteById(d, id).result.Ok?
    ensures var rows := Rows(d);
      FindAll(DeleteById(d, id).state).result ==
        Ok(ParseRows([rows[0]]) + Filter(ParseRows(rows[1..]), OtherId(id)))
  {
    var rows := Rows(d);
    ParseRowsAppend([rows[0]], Filter(rows[1..], Survives(id)));
    ParseSurvivors(rows[1..], id);
  }

  /** Unless row 0 holds a record with id `id`, no record with that id is
      listed after a successful delete. */
  lemma DeleteRemovesId(d: Disk, id: Int64)
    requires DeleteById(d, id).result.Ok?
    ensures var first := ParseRow(Rows(d)[0]);
      (first.None? || first.value.id != id) ==>
      var listed := FindAll(DeleteById(d, id).state).result.value;
      forall i :: 0 <= i < |listed| ==> listed[i].id != id
  {
    var row0 := Rows(d)[0];
    DeleteThenFindAll(d, id);
    if ParseRow(row0).None? || ParseRow(row0).value.id != id {
      ParseSingle(row0);
      NoneWithId(ParseRows([row0]), Filter(ParseRows(Rows(d)[1..]), OtherId(id)), id);
    }
  }

  lemma ParseSingle(row: Row)
    ensures ParseRows([row]) == match ParseRow(row) case Some(e) => [e] case None => []
  {
    assert [row][1..] == [];
  }

  lemma NoneWithId(first: seq<Expense>, rest: seq<Expense>, id: Int64)
    requires forall i :: 0 <= i < |first| ==> first[i].id != id
    requires forall i :: 0 <= i < |rest| ==> OtherId(id)(rest[i])
    ensures forall i :: 0 <= i < |first + rest| ==> (first + rest)[i].id != id
  {
  }

  // ---------------------------------------------------------------------
  // UpdateByID

  /** The index of the first row whose id does not parse, or the row count
      when every id parses. */
  function FirstMalformed(rows: seq<Row>): (i: nat)
    ensures i <= |rows|
    ensures forall j :: 0 <= j < i ==> Atoi(rows[j][0]).Some?
    ensures i < |rows| ==> Atoi(rows[i][0]).None?
  {
    if rows == [] || Atoi(rows[0][0]).None? then 0
    else
      var i := FirstMalformed(rows[1..]);
      assert forall j :: 1 <= j < |rows| ==> rows[j] == rows[1..][j - 1];
      i + 1
  }

  /** UpdateByID's loop: every row whose id equals `e`'s becomes `e`'s
      encoding; the first row whose id does not parse aborts with Atoi's
      error. */
  function Rewrite(rows: seq<Row>, e: Expense): (r: Result<seq<Row>>)
    ensures r.Ok? <==> FirstMalformed(rows) == |rows|
    ensures r.Err? ==> r.error == MalformedId(rows[FirstMalformed(rows)][0])
    ensures r.Ok? ==> |r.value| == |rows|
    ensures r.Ok? ==> forall i :: 0 <= i < |rows| ==>
      r.value[i] == if Atoi(rows[i][0]) == Some(e.id) then EncodeRow(e) else rows[i]
  {
    if rows == [] then Ok([])
    else
      match Atoi(rows[0][0])
      case None => Err(MalformedId(rows[0][0]))
      case Some(v) =>
        match Rewrite(rows[1..], e)
        case Err(err) => Err(err)
        case Ok(rest) =>
          assert forall i :: 1 <= i < |rows| ==> rows[i] == rows[1..][i - 1];
          Ok([if v == e.id then EncodeRow(e) else rows[0]] + rest)
  }

  /** `UpdateByID`: rewrite the whole file with every row carrying `e`'s id
      replaced; an id matching no row rewrites the file unchanged. */
  function UpdateById(d: Disk, e: Expense): (r: Reply<Disk, ()>)
    ensures r.result.Err? ==> r.state == d
    ensures r.result.Ok? <==>
              && d.file.Some? && d.readable && d.writable
              && forall i :: 0 <= i < |Rows(d)| ==> Atoi(Rows(d)[i][0]).Some?
    ensures r.result.Ok? ==> r.state == d.(file := r.state.file) && |Rows(r.state)| == |Rows(d)|
    ensures r.result.Ok? ==> forall i :: 0 <= i < |Rows(d)| ==>
      Rows(r.state)[i] == if Atoi(Rows(d)[i][0]) == Some(e.id) then EncodeRow(e) else Rows(d)[i]
    ensures r.result.Ok? && (forall i :: 0 <= i < |Rows(d)| ==> Atoi(Rows(d)[i][0]) != Some(e.id))
      ==> r.state == d
    ensures d.file.Some? && d.readable && (exists i :: 0 <= i < |Rows(d)| && Atoi(Rows(d)[i][0]).None?)
      ==> r.result.Err? && r.result.error.MalformedId?
    ensures d.file.None? ==> r == Reply(d, Err(IoFailure))
    ensures d.file.Some? && !d.readable ==> r == Reply(d, Err(IoFailure))
    ensures && d.file.Some? && d.readable && !d.writable
            && (forall i :: 0 <= i < |Rows(d)| ==> Atoi(Rows(d)[i][0]).Some?)
      ==> r == Reply(d, Err(IoFailure))
  {
    match d.file
    case None => Reply(d, Err(IoFailure))
    case Some(rows) =>
      assert Rows(d) == rows;
      if !d.readable then Reply(d, Err(IoFailure))
      else
        match Rewrite(rows, e)
        case Err(err) => Reply(d, Err(err))
        case Ok(updated) =>
          if !d.writable then Reply(d, Err(IoFailure))
          else
            assert updated == rows ==> d.(file := Some(updated)) == d;
            Reply(d.(file := Some(updated)), Ok(()))
  }

  /** After a successful update with a storable day, every listed record
      with `e`'s id is `e`, `e` is listed when some row carried its id, and
      the records with other ids are listed exactly as before. */
  lemma UpdateThenFindAll(d: Disk, e: Expense)
    requires UpdateById(d, e).result.Ok? && Calendar.IsStorable(e.date)
    ensures var after := FindAll(UpdateById(d, e).state).result.value;
      && (forall i :: 0 <= i < |after| && after[i].id == e.id ==> after[i] == e)
      && Filter(after, OtherId(e.id)) == Filter(ParseRows(Rows(d)), OtherId(e.id))
    ensures (exists i :: 0 <= i < |Rows(d)| && Atoi(Rows(d)[i][0]) == Some(e.id))
      ==> e in FindAll(UpdateById(d, e).state).result.value
  {
    var rows := Rows(d);
    var updated := Rows(UpdateById(d, e).state);
    ParseEncodeRow(e);
    UpdatedRecords(rows, updated, e);
    if i :| 0 <= i < |rows| && Atoi(rows[i][0]) == Some(e.id) {
      UpdatedKeepsRecord(d, e, i);
    }
  }

  /** A row that carried `e`'s id now parses to `e`, so `e` is listed. */
  lemma UpdatedKeepsRecord(d: Disk, e: Expense, i: int)
    requires UpdateById(d, e).result.Ok? && Calendar.IsStorable(e.date)
    requires 0 <= i < |Rows(d)| && Atoi(Rows(d)[i][0]) == Some(e.id)
    ensures e in FindAll(UpdateById(d, e).state).result.value
  {
    var updated := Rows(UpdateById(d, e).state);
    assert updated[i] == EncodeRow(e);
    ParseEncodeRow(e);
    ParseRowsExactly(updated);
  }

  lemma {:induction false} UpdatedRecords(rows: seq<Row>, updated: seq<Row>, e: Expense)
    requires Calendar.IsStorable(e.date) && |updated| == |rows|
    requires forall i :: 0 <= i < |rows| ==>
      updated[i] == if Atoi(rows[i][0]) == Some(e.id) then EncodeRow(e) else rows[i]
    ensures forall x :: x in ParseRows(updated) && x.id == e.id ==> x == e
    ensures Filter(ParseRows(updated), OtherId(e.id)) == Filter(ParseRows(rows), OtherId(e.id))
  {
    if rows != [] {
      UpdatedRecords(rows[1..], updated[1..], e);
      ParseEncodeRow(e);
      var a := match ParseRow(rows[0]) case Some(x) => [x] case None => [];
      var b := match ParseRow(updated[0]) case Some(x) => [x] case None => [];
      FilterAppend(a, ParseRows(rows[1..]), OtherId(e.id));
      FilterAppend(b, ParseRows(updated[1..]), OtherId(e.id));
    }
  }
}
