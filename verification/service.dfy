/** The expense service: input validation, totals and the update merge, over
    any storage backend given as a `Repository` and its state. Each operation
    returns the backend state it leaves behind and its Go result. */
module Service {
  import opened Optional
  import opened GoInt
  import opened Domain

  /** `AddExpense`: validate, stamp the given day as the date, and save.
      The day is a parameter standing for `time.Now()`. */
  function AddExpense<S>(repo: Repository<S>, s: S, description: string, amount: Int64, today: Date)
    : (r: Reply<S, Int64>)
    ensures description == "" ==> r == Reply(s, Err(EmptyDescription))
    ensures description != "" && amount <= 0 ==> r == Reply(s, Err(NonPositiveAmount))
    ensures description != "" && amount > 0 ==> r == repo.save(s, Expense(0, today, description, amount))
  {
    if description == "" then Reply(s, Err(EmptyDescription))
    else if amount <= 0 then Reply(s, Err(NonPositiveAmount))
    else repo.save(s, Expense(0, today, description, amount))
  }

  /** `ListExpenses`: what the backend lists. */
  function ListExpenses<S>(repo: Repository<S>, s: S): (r: Reply<S, seq<Expense>>)
    ensures r == repo.findAll(s)
  {
    repo.findAll(s)
  }

  // ---------------------------------------------------------------------
  // Totals

  /** The exact sum of the amounts. */
  function Sum(es: seq<Expense>): int {
    if es == [] then 0 else Sum(es[..|es| - 1]) + es[|es| - 1].amount
  }

  /** The exact sum of the amounts of the expenses dated in `month`, of any
      year. */
  function MonthSum(es: seq<Expense>, month: int): int {
    if es == [] then 0
    else MonthSum(es[..|es| - 1], month) + (if es[|es| - 1].date.month == month then es[|es| - 1].amount else 0)
  }

  /** The totals loop as Go runs it: `total += e.Amount` in a 64-bit int. */
  function RunningTotal(es: seq<Expense>): (t: Int64)
    ensures t == Wrap(Sum(es))
  {
    if es == [] then 0
    else
      var prefix := es[..|es| - 1];
      WrapAddLeft(Sum(prefix), es[|es| - 1].amount);
      Wrap(RunningTotal(prefix) + es[|es| - 1].amount)
  }

  /** The by-month loop as Go runs it: only expenses of `month` are added. */
  function MonthRunningTotal(es: seq<Expense>, month: int): (t: Int64)
    ensures t == Wrap(MonthSum(es, month))
  {
    if es == [] then 0
    else
      var prefix := es[..|es| - 1];
      var last := es[|es| - 1];
      var t := MonthRunningTotal(prefix, month);
      if last.date.month == month then
        WrapAddLeft(MonthSum(prefix, month), last.amount);
        Wrap(t + last.amount)
      else t
  }

  /** `GetTotalAmount`: the listed amounts added up, wrapping like a Go int;
      the backend is only read. */
  function GetTotalAmount<S>(repo: Repository<S>, s: S): (r: Reply<S, Int64>)
    ensures r.state == repo.findAll(s).state
    ensures repo.findAll(s).result.Err? ==> r.result == Err(repo.findAll(s).result.error)
    ensures repo.findAll(s).result.Ok? ==> r.result == Ok(Wrap(Sum(repo.findAll(s).result.value)))
  {
    var found := repo.findAll(s);
    match found.result
    case Err(err) => Reply(found.state, Err(err))
    case Ok(es) => Reply(found.state, Ok(RunningTotal(es)))
  }

  /** `GetTotalAmountByMonth`: a month outside 1..12 is refused before the
      backend is read; otherwise the amounts of that month of every year. */
  function GetTotalAmountByMonth<S>(repo: Repository<S>, s: S, month: Int64): (r: Reply<S, Int64>)
    ensures !(1 <= month <= 12) ==> r == Reply(s, Err(InvalidMonth))
    ensures 1 <= month <= 12 ==> r.state == repo.findAll(s).state
    ensures 1 <= month <= 12 && repo.findAll(s).result.Err? ==> r.result == Err(repo.findAll(s).result.error)
    ensures 1 <= month <= 12 && repo.findAll(s).result.Ok? ==>
      r.result == Ok(Wrap(MonthSum(repo.findAll(s).result.value, month)))
  {
    if month < 1 || month > 12 then Reply(s, Err(InvalidMonth))
    else
      var found := repo.findAll(s);
      match found.result
      case Err(err) => Reply(found.state, Err(err))
      case Ok(es) => Reply(found.state, Ok(MonthRunningTotal(es, month)))
  }

  /** The sum of the month sums for months 1..k. */
  function MonthsUpTo(es: seq<Expense>, k: nat): int {
    if k == 0 then 0 else MonthsUpTo(es, k - 1) + MonthSum(es, k)
  }

  lemma {:induction false} MonthsUpToStep(es: seq<Expense>, k: nat)
    requires es != []
    ensures var last := es[|es| - 1];
      MonthsUpTo(es, k) == MonthsUpTo(es[..|es| - 1], k) + (if 1 <= last.date.month <= k then last.amount else 0)
  {
    if k > 0 {
      MonthsUpToStep(es, k - 1);
    }
  }

  /** When every date has a month in 1..12, the twelve month sums add up to
      the whole sum. */
  lemma {:induction false} MonthSumsPartition(es: seq<Expense>)
    requires forall i :: 0 <= i < |es| ==> 1 <= es[i].date.month <= 12
    ensures MonthsUpTo(es, 12) == Sum(es)
  {
    if es != [] {
      MonthsUpToStep(es, 12);
      MonthSumsPartition(es[..|es| - 1]);
    } else {
      NoMonthsOfNothing(12);
    }
  }

  lemma {:induction false} NoMonthsOfNothing(k: nat)
    ensures MonthsUpTo([], k) == 0
  {
    if k > 0 {
      NoMonthsOfNothing(k - 1);
    }
  }

  /** Adding up, in Go ints, the values of a sequence of Go ints. */
  function WrappingSum(xs: seq<Int64>): Int64 {
    if xs == [] then 0 else Wrap(WrappingSum(xs[..|xs| - 1]) + xs[|xs| - 1])
  }

  /** The twelve by-month results of one backend state. */
  function MonthlyResults<S>(repo: Repository<S>, s: S): seq<Result<Int64>> {
    seq(12, i requires 0 <= i < 12 => GetTotalAmountByMonth(repo, s, i + 1).result)
  }

  lemma {:induction false} WrappingSumOfMonths(es: seq<Expense>, k: nat)
    requires k <= 12
    ensures WrappingSum(seq(k, i => Wrap(MonthSum(es, i + 1)))) == Wrap(MonthsUpTo(es, k))
  {
    if k > 0 {
      var xs := seq(k, i => Wrap(MonthSum(es, i + 1)));
      assert xs[..k - 1] == seq(k - 1, i => Wrap(MonthSum(es, i + 1)));
      WrappingSumOfMonths(es, k - 1);
      WrapAddLeft(MonthsUpTo(es, k - 1), xs[k - 1]);
      WrapAddLeft(MonthSum(es, k), MonthsUpTo(es, k - 1));
    }
  }

  /** When the backend lists only dates with a month in 1..12, the twelve
      by-month totals of a state all succeed and add up, in Go ints, to its
      total. */
  lemma MonthlyTotalsAddUp<S>(repo: Repository<S>, s: S)
    requires repo.findAll(s).result.Ok?
    requires var es := repo.findAll(s).result.value;
      forall i :: 0 <= i < |es| ==> 1 <= es[i].date.month <= 12
    ensures forall i :: 0 <= i < 12 ==> MonthlyResults(repo, s)[i].Ok?
    ensures WrappingSum(seq(12, i requires 0 <= i < 12 => MonthlyResults(repo, s)[i].value))
      == GetTotalAmount(repo, s).result.value
  {
    var es := repo.findAll(s).result.value;
    var values := seq(12, i requires 0 <= i < 12 => MonthlyResults(repo, s)[i].value);
    forall i | 0 <= i < 12
      ensures values[i] == Wrap(MonthSum(es, i + 1))
    {
      assert MonthlyResults(repo, s)[i] == GetTotalAmountByMonth(repo, s, i + 1).result;
    }
    assert values == seq(12, i => Wrap(MonthSum(es, i + 1)));
    WrappingSumOfMonths(es, 12);
    MonthSumsPartition(es);
  }

  // ---------------------------------------------------------------------
  // Delete and update

  /** `DeleteExpense`: an id below 1 is refused; otherwise the backend's
      delete, whose result is passed on unchanged. */
  function DeleteExpense<S>(repo: Repository<S>, s: S, id: Int64): (r: Reply<S, ()>)
    ensures id <= 0 ==> r == Reply(s, Err(InvalidExpenseId))
    ensures id > 0 ==> r == repo.deleteById(s, id)
  {
    if id <= 0 then Reply(s, Err(InvalidExpenseId)) else repo.deleteById(s, id)
  }

  /** The first listed expense with id `id`, as the update loop finds it. */
  function FirstWithId(es: seq<Expense>, id: Int64): (r: Option<Expense>)
    ensures r.None? <==> forall i :: 0 <= i < |es| ==> es[i].id != id
    ensures r.Some? ==> exists i :: && 0 <= i < |es| && es[i] == r.value && es[i].id == id
                                    && forall j :: 0 <= j < i ==> es[j].id != id
  {
    if es == [] then None
    else if es[0].id == id then Some(es[0])
    else
      var r := FirstWithId(es[1..], id);
      assert forall i :: 1 <= i < |es| ==> es[i] == es[1..][i - 1];
      r
  }

  /** The optional fields of an update; `None` for a flag not given. */
  datatype Changes = Changes(date: Option<Date>, description: Option<string>, amount: Option<Int64>) {
    predicate IsEmpty() {
      date.None? && description.None? && amount.None?
    }
  }

  /** The record with exactly the given fields replaced. */
  function Patch(e: Expense, c: Changes): (p: Expense)
    ensures p.id == e.id
    ensures c.date.None? ==> p.date == e.date
    ensures c.date.Some? ==> p.date == c.date.value
    ensures c.description.None? ==> p.description == e.description
    ensures c.description.Some? ==> p.description == c.description.value
    ensures c.amount.None? ==> p.amount == e.amount
    ensures c.amount.Some? ==> p.amount == c.amount.value
  {
    Expense(e.id, c.date.GetOr(e.date), c.description.GetOr(e.description), c.amount.GetOr(e.amount))
  }

  /** `UpdateExpense`: refuse an id below 1 and an update with no field,
      both before reading; find the first record with the id; hand the
      patched record to the backend's update; return the id. */
  function UpdateExpense<S>(repo: Repository<S>, s: S, id: Int64, c: Changes): (r: Reply<S, Int64>)
    ensures id <= 0 ==> r == Reply(s, Err(InvalidExpenseId))
    ensures id > 0 && c.IsEmpty() ==> r == Reply(s, Err(NothingToUpdate))
    ensures id > 0 && !c.IsEmpty() && repo.findAll(s).result.Err? ==>
      r == Reply(repo.findAll(s).state, Err(repo.findAll(s).result.error))
    ensures id > 0 && !c.IsEmpty() && repo.findAll(s).result.Ok?
      && (forall i :: 0 <= i < |repo.findAll(s).result.value| ==> repo.findAll(s).result.value[i].id != id)
      ==> r == Reply(repo.findAll(s).state, Err(ExpenseNotFound))
    ensures r.result.Ok? ==> r.result.value == id
    ensures (&& id > 0 && !c.IsEmpty() && repo.findAll(s).result.Ok?
             && FirstWithId(repo.findAll(s).result.value, id).Some?) ==>
      var u := repo.updateById(repo.findAll(s).state, Patch(FirstWithId(repo.findAll(s).result.value, id).value, c));
      r.state == u.state && (r.result.Ok? <==> u.result.Ok?)
      && (u.result.Err? ==> r.result == Err(u.result.error))
  {
    if id <= 0 then Reply(s, Err(InvalidExpenseId))
    else if c.IsEmpty() then Reply(s, Err(NothingToUpdate))
    else
      var found := repo.findAll(s);
      match found.result
      case Err(err) => Reply(found.state, Err(err))
      case Ok(es) =>
        match FirstWithId(es, id)
        case None => Reply(found.state, Err(ExpenseNotFound))
        case Some(target) =>
          var patched := Patch(target, c);
          var updated := repo.updateById(found.state, patched);
          match updated.result
          case Err(err) => Reply(updated.state, Err(err))
          case Ok(_) => Reply(updated.state, Ok(patched.id))
  }
}
