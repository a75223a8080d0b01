// The loan use cases: opening a loan with its weekly schedule, quoting
// what is owed now, and applying a payment.

module LoanUsecase {
  import opened Results
  import Model
  import opened Queries
  import opened Billing
  import Consistency
  import Reconciliation
  import Entity
  import opened Repository

  // ---------------------------------------------------------- a new loan

  /** What opening a loan answers: the loan's id and total, the first
      instalment and when it falls due. */
  datatype LoanResponse = LoanResponse(LoanID: nat, TotalAmount: real, OutstandingAmount: real, Week: int, DueDate: Model.Day)

  /** The customers table once the borrower is known, or the error that
      ends the request: an unknown customer is registered with the name and
      email given, a known one is read back with its loans. */
  function CustomerStep(customers: seq<Model.Customer>, loans: seq<Model.Loan>, rows: seq<Row>, refused: set<Call>,
                        id: nat, name: string, email: string): (r: Result<seq<Model.Customer>>)
    ensures r.Ok? ==> FindCustomer(r.value, id).Some?
  {
    if Call.GetCustomerByID in refused then Err(Wrapped("failed to retrieve customer", StorageFailure))
    else if FindCustomer(customers, id).None? then
      if Call.SaveCustomer in refused || exists k :: 0 <= k < |customers| && (customers[k].ID == id || customers[k].Email == email)
      then Err(Wrapped("failed to save customer", StorageFailure))
      else
        var added := customers + [Model.Customer(id, name, email, None)];
        assert added[|customers|].ID == id;
        Ok(added)
    else
      var m := Preloaded(FindCustomer(customers, id).value, loans, rows);
      if Entity.CustomerLoadable(m) then Ok(customers)
      else Err(Entity.MakeLoanError(m.Loans.value[Entity.FirstUnloadable(m.Loans.value)]))
  }

  /** Looks the borrower up, registering them when the lookup finds no record. */
  method FindOrCreateCustomer(store: Store, id: nat, name: string, email: string) returns (r: Result<Entity.Customer>)
    modifies store
    ensures var step := CustomerStep(old(store.customers), old(store.loans), old(store.payments), store.refused, id, name, email);
            (r.Err? <==> step.Err?) && (r.Err? ==> r.error == step.error) &&
            store.customers == (if step.Ok? then step.value else old(store.customers))
    ensures r.Ok? ==> r.value.GetID() == id
    ensures store.loans == old(store.loans) && store.payments == old(store.payments)
    ensures store.nextLoanID == old(store.nextLoanID) && store.nextPaymentID == old(store.nextPaymentID)
  {
    r := store.GetCustomerByID(id);
    if r.Err? && r.error == RecordNotFound {
      var customer := Entity.CreateCustomer(id, name, email);
      var err := store.SaveCustomer(customer);
      if err.Some? {
        return Err(err.value);
      }
      r := Ok(customer);
    }
  }

  /** The weekly instalment: the total spread evenly over the term. With no
      positive term there is no instalment to speak of; the request fails
      before any instalment is reported. */
  function Instalment(total: real, termWeeks: int): real
  {
    if termWeeks > 0 then total / (termWeeks as real) else 0.0
  }

  function Weeks(termWeeks: int): nat
  {
    if termWeeks > 0 then termWeeks else 0
  }

  /** The record a new loan is stored as. */
  function NewLoanRecord(id: nat, customerID: nat, amount: real, termWeeks: int, rates: real, now: Model.Day): Model.Loan
  {
    Model.Loan(id, customerID, amount, TotalAmount(amount, rates), "open", termWeeks, rates, now, Model.ZeroDay, None)
  }

  /** One payment per week of the term, due a week apart from `now`; the
      first is outstanding, the rest scheduled. */
  method GeneratePayments(loanID: nat, instalment: real, termWeeks: int, now: Model.Day) returns (ps: seq<Entity.Payment>)
    ensures Entity.RowsOf(ps) == Schedule(loanID, instalment, Weeks(termWeeks), now)
    ensures forall p :: p in ps ==> fresh(p)
  {
    ps := [];
    var week := 1;
    while week <= termWeeks
      invariant 1 <= week <= Weeks(termWeeks) + 1
      invariant Entity.RowsOf(ps) == Schedule(loanID, instalment, week - 1, now)
      invariant forall p :: p in ps ==> fresh(p)
    {
      var status := "scheduled";
      if week == 1 {
        status := "outstanding";
      }
      var dueDate := now + 7 * week;
      var created := Entity.CreatePayment(loanID, week, instalment, dueDate, status);
      if created.Err? {
        assert false;
      }
      Entity.RowsOfSnoc(ps, created.value);
      ScheduleSnoc(loanID, instalment, week - 1, now);
      ps := ps + [created.value];
      week := week + 1;
    }
  }

  /** Opens a loan for a customer, registering the customer first when
      unknown, and stores its weekly schedule. */
  method CreateLoan(store: Store, customerID: nat, name: string, email: string, amount: real, termWeeks: int,
                    rates: real, now: Model.Day) returns (r: Result<LoanResponse>)
    requires store.Valid()
    modifies store
    ensures store.Valid()
    ensures Consistency.Consistent(old(store.payments)) ==> Consistency.Consistent(store.payments)
    ensures var step := CustomerStep(old(store.customers), old(store.loans), old(store.payments), store.refused,
                                     customerID, name, email);
            step.Err? ==> r == Err(step.error) && store.customers == old(store.customers) &&
                          TablesOf(store) == old(TablesOf(store))
    ensures var step := CustomerStep(old(store.customers), old(store.loans), old(store.payments), store.refused,
                                     customerID, name, email);
            step.Ok? ==> store.customers == step.value &&
                         (r, TablesOf(store)) == NewLoanOutcome(old(TablesOf(store)), store.refused, customerID,
                                                                amount, termWeeks, rates, now)
  {
    var customer := FindOrCreateCustomer(store, customerID, name, email);
    if customer.Err? {
      return Err(customer.error);
    }
    ghost var before := TablesOf(store);
    r := SaveNewLoan(store, customer.value.GetID(), amount, termWeeks, rates, now);
    NewLoanKeepsValid(before, store.refused, customerID, amount, termWeeks, rates, now);
  }

  /** The tables a new loan touches, with the next ids the database hands out. */
  datatype Tables = Tables(loans: seq<Model.Loan>, payments: seq<Row>, nextLoanID: nat, nextPaymentID: nat)

  function TablesOf(store: Store): Tables
    reads store
  {
    Tables(store.loans, store.payments, store.nextLoanID, store.nextPaymentID)
  }

  ghost predicate TablesValid(t: Tables)
  {
    RowsValid(t.payments, t.nextPaymentID, t.nextLoanID) && LoansValid(t.loans, t.nextLoanID)
  }

  /** The answer and the tables after storing a new loan of a known customer:
      a refused loan insert changes nothing; otherwise the loan is stored
      under the next loan id, then its schedule under the next payment ids
      unless that insert is refused; a term of no weeks fails when the first
      instalment is reported. */
  function NewLoanOutcome(t: Tables, refused: set<Call>, customerID: nat, amount: real, termWeeks: int,
                          rates: real, now: Model.Day): (o: (Result<LoanResponse>, Tables))
    ensures t.loans <= o.1.loans && |o.1.loans| <= |t.loans| + 1
    ensures t.payments <= o.1.payments
    ensures o.0.Ok? ==> termWeeks > 0 && o.0.value.LoanID == t.nextLoanID &&
                        |o.1.loans| == |t.loans| + 1 && o.1.loans[|t.loans|].ID == o.0.value.LoanID &&
                        |o.1.payments| == |t.payments| + termWeeks
    ensures o.0.Ok? ==> forall k :: |t.payments| <= k < |o.1.payments| ==> o.1.payments[k].LoanID == o.0.value.LoanID
  {
    if Call.SaveLoan in refused then (Err(Wrapped("failed to save loan", StorageFailure)), t)
    else
      var id := t.nextLoanID;
      var instalment := Instalment(TotalAmount(amount, rates), termWeeks);
      var loans := t.loans + [NewLoanRecord(id, customerID, amount, termWeeks, rates, now)];
      if Call.SavePayments in refused then (Err(StorageFailure), t.(loans := loans, nextLoanID := id + 1))
      else
        var payments := t.payments + Numbered(Schedule(id, instalment, Weeks(termWeeks), now), t.nextPaymentID);
        var after := Tables(loans, payments, id + 1, t.nextPaymentID + Weeks(termWeeks));
        if termWeeks <= 0 then (Err(IndexOutOfRange), after)
        else (Ok(LoanResponse(id, TotalAmount(amount, rates), instalment, 1, now + 7)), after)
  }

  /** Creates, stores and schedules the loan of a known customer. */
  method SaveNewLoan(store: Store, customerID: nat, amount: real, termWeeks: int, rates: real, now: Model.Day)
    returns (r: Result<LoanResponse>)
    requires FindCustomer(store.customers, customerID).Some?
    modifies store
    ensures store.customers == old(store.customers)
    ensures (r, TablesOf(store)) == NewLoanOutcome(old(TablesOf(store)), store.refused, customerID,
                                                   amount, termWeeks, rates, now)
  {
    var loan := Entity.CreateLoan(customerID, amount, termWeeks, rates, now);
    var err := store.SaveLoan(loan);
    if err.Some? {
      return Err(err.value);
    }
    r := StoreSchedule(store, loan.id, loan.totalAmount, termWeeks, now);
  }

  /** Generates and stores the schedule of a stored loan, and answers with
      its first instalment. */
  method StoreSchedule(store: Store, loanID: nat, totalAmount: real, termWeeks: int, now: Model.Day)
    returns (r: Result<LoanResponse>)
    modifies store`payments, store`nextPaymentID
    ensures Call.SavePayments in store.refused ==>
              r == Err(StorageFailure) && store.payments == old(store.payments) &&
              store.nextPaymentID == old(store.nextPaymentID)
    ensures var instalment := Instalment(totalAmount, termWeeks);
            Call.SavePayments !in store.refused ==>
              store.payments == old(store.payments) + Numbered(Schedule(loanID, instalment, Weeks(termWeeks), now),
                                                               old(store.nextPaymentID)) &&
              store.nextPaymentID == old(store.nextPaymentID) + Weeks(termWeeks) &&
              r == if termWeeks <= 0 then Err(IndexOutOfRange)
                   else Ok(LoanResponse(loanID, totalAmount, instalment, 1, now + 7))
  {
    var instalment := Instalment(totalAmount, termWeeks);
    var ps := GeneratePayments(loanID, instalment, termWeeks, now);
    var err := store.SavePayments(ps);
    if err.Some? {
      return Err(err.value);
    }
    if |ps| == 0 {
      return Err(IndexOutOfRange);
    }
    return Ok(LoanResponse(loanID, totalAmount, instalment, 1, ps[0].dueDate));
  }

  // ------------------------------------------------------ applying a payment

  /** How many of the open rows a payment of `amount` writes as paid: the
      rows it covers, up to the first write the store refuses. */
  function Written(rows: seq<Row>, amount: real, refused: set<Call>): (n: nat)
    ensures n <= |rows|
  {
    var covered := PaidPrefix(rows, amount);
    var accepted := FirstRefused(rows, refused);
    if covered <= accepted then covered else accepted
  }

  /** Walks the open payments in order, marking each one paid and deducting
      its amount while the remainder covers it; the first shortfall ends the
      walk, and so does the first refused write, with an error. Each payment
      is marked on a copy, the listed entities are left as they are. */
  method UpdatePaid(store: Store, ps: seq<Entity.Payment>, amount: real) returns (err: Option<Error>)
    modifies store`payments
    ensures var rows := old(Entity.RowsOf(ps));
            store.payments == MarkPaid(old(store.payments), IDsOf(rows[..Written(rows, amount, store.refused)]))
    ensures var rows := old(Entity.RowsOf(ps));
            err.None? <==> PaidPrefix(rows, amount) <= FirstRefused(rows, store.refused)
    ensures err.Some? ==> err.value == StorageFailure
  {
    ghost var rows := Entity.RowsOf(ps);
    ghost var before := store.payments;
    ghost var stop := FirstRefused(rows, store.refused);
    ghost var reach := PaidPrefix(rows, amount);
    var remaining := amount;
    var i := 0;
    err := None;
    assert rows[0..] == rows;
    while i < |ps|
      invariant i <= |ps| && i <= stop
      invariant i + PaidPrefix(rows[i..], remaining) == reach
      invariant store.payments == MarkPaid(before, IDsOf(rows[..i]))
    {
      assert rows[i] == ps[i].ToModel();
      PaidPrefixAt(rows, i, remaining);
      var covered, failed := PayOne(store, ps[i], remaining);
      FirstRefusedIsFirst(rows, store.refused, 0, i);
      if !covered {
        assert reach == i;
        break;
      } else if failed {
        assert stop == i < reach;
        err := Some(StorageFailure);
        break;
      }
      remaining := remaining - ps[i].amount;
      MarkPaidPrefixStep(before, rows, i);
      i := i + 1;
    }
    if i == |ps| && err.None? {
      assert rows[i..] == [];
    }
    assert i == Written(rows, amount, store.refused);
  }

  /** One pass of the loop body: a payment the remainder covers is marked
      paid, on a copy, and written back. */
  method PayOne(store: Store, p: Entity.Payment, remaining: real) returns (covered: bool, failed: bool)
    modifies store`payments
    ensures covered <==> p.amount <= remaining
    ensures failed <==> covered && Call.UpdatePaymentStatus(p.id) in store.refused
    ensures store.payments == if covered && !failed then WithStatus(old(store.payments), p.id, "paid") else old(store.payments)
  {
    var payment := p.Copy();
    if remaining < payment.amount {
      return false, false;
    }
    var _ := payment.SetStatus("paid");
    var err := store.UpdatePaymentStatus(payment);
    return true, err.Some?;
  }

  /** The loan and payment tables after a use case, with the error it returns. */
  datatype Outcome = Outcome(err: Option<Error>, loans: seq<Model.Loan>, payments: seq<Row>)

  /** After a payment: the loan closes when none of its payments is scheduled
      or outstanding any more, otherwise its earliest such payment becomes
      outstanding if it is still scheduled. A failed lookup is ignored. */
  function NextPaymentStep(loans: seq<Model.Loan>, rows: seq<Row>, refused: set<Call>, loanID: nat): (o: Outcome)
    ensures o.err.None? || o.err == Some(StorageFailure) || o.err == Some(Wrapped("failed to update loan status", StorageFailure))
    ensures o.loans == loans || o.payments == rows
    ensures o.loans != loans ==> o.loans == WithLoanStatus(loans, loanID, "close") && NextRow(rows, loanID).None?
    ensures o.payments != rows ==> NextRow(rows, loanID).Some? && NextRow(rows, loanID).value.Status == "scheduled" &&
                                   o.payments == WithStatus(rows, NextRow(rows, loanID).value.ID, "outstanding")
  {
    var next := NextRow(rows, loanID);
    if Call.GetNextPayment in refused then Outcome(None, loans, rows)
    else if next.None? then
      if Call.UpdateLoanStatus(loanID) in refused
      then Outcome(Some(Wrapped("failed to update loan status", StorageFailure)), loans, rows)
      else Outcome(None, WithLoanStatus(loans, loanID, "close"), rows)
    else if next.value.Status != "scheduled" then Outcome(None, loans, rows)
    else if Call.UpdatePaymentStatus(next.value.ID) in refused then Outcome(Some(StorageFailure), loans, rows)
    else Outcome(None, loans, WithStatus(rows, next.value.ID, "outstanding"))
  }

  /** A payment of `amount` towards loan `loanID`: rejected without any write
      when the loan cannot be read, has no open payment list, or the amount
      does not match the quote; otherwise the covered payments are marked
      paid in order, and then the next payment step runs. */
  function PaymentOutcome(loans: seq<Model.Loan>, rows: seq<Row>, refused: set<Call>, loanID: nat, amount: real): (o: Outcome)
    ensures |o.payments| == |rows| && |o.loans| == |loans|
    ensures o.err.None? ==> OutstandingOf(rows, loanID) != [] && AmountMatches(OutstandingTotal(OutstandingOf(rows, loanID)), amount)
    ensures !AmountMatches(OutstandingTotal(OutstandingOf(rows, loanID)), amount) ==> o.loans == loans && o.payments == rows
  {
    var lookup := OpenLoanLookup(loans, rows, refused, loanID);
    var open := OutstandingOf(rows, loanID);
    if lookup.Err? then Outcome(Some(lookup.error), loans, rows)
    else if open == [] then Outcome(Some(NilDereference), loans, rows)
    else PayOpenOutcome(loans, rows, refused, loanID, open, amount)
  }

  /** The part of a payment after the loan's open payments `open` are read. */
  function PayOpenOutcome(loans: seq<Model.Loan>, rows: seq<Row>, refused: set<Call>, loanID: nat,
                          open: seq<Row>, amount: real): Outcome
  {
    if !AmountMatches(OutstandingTotal(open), amount) then Outcome(Some(AmountMismatch), loans, rows)
    else
      var paid := MarkPaid(rows, IDsOf(open[..Written(open, amount, refused)]));
      if FirstRefused(open, refused) < PaidPrefix(open, amount) then Outcome(Some(StorageFailure), loans, paid)
      else NextPaymentStep(loans, paid, refused, loanID)
  }

  method UpdateNextPayment(store: Store, loan: Entity.Loan) returns (err: Option<Error>)
    requires WeekOrdered(store.payments)
    modifies store`payments, store`loans, loan`status
    ensures Outcome(err, store.loans, store.payments)
              == NextPaymentStep(old(store.loans), old(store.payments), store.refused, loan.id)
  {
    var next := store.GetNextPayment(loan.id);
    if next == Ok(None) {
      var _ := loan.SetStatus("close");
      err := store.UpdateLoanStatus(loan);
      return;
    }
    if next.Ok? && next.value.value.Status() == "scheduled" {
      var p := next.value.value;
      var _ := p.SetStatus("outstanding");
      err := store.UpdatePaymentStatus(p);
      return;
    }
    err := None;
  }

  // ------------------------------------------------------------- the quote

  /** The loop both quote computations share: the pending payments in order,
      and the last outstanding one. */
  method Classify(ps: seq<Entity.Payment>) returns (pending: seq<Row>, outstanding: Option<Row>)
    ensures pending == PendingRows(Entity.RowsOf(ps))
    ensures outstanding == LastWithStatus(Entity.RowsOf(ps), "outstanding")
  {
    ghost var rows := Entity.RowsOf(ps);
    pending, outstanding := [], None;
    var i := 0;
    while i < |ps|
      invariant i <= |ps| && pending == PendingRows(rows[..i])
      invariant outstanding == LastWithStatus(rows[..i], "outstanding")
    {
      var payment := ps[i].ToModel();
      ClassifyStep(rows, i);
      if payment.Status == "pending" {
        pending := pending + [payment];
      } else if payment.Status == "outstanding" {
        outstanding := Some(payment);
      }
      i := i + 1;
    }
    assert rows[..i] == rows;
  }

  /** One more row extends the pending rows and the last outstanding row. */
  lemma ClassifyStep(rows: seq<Row>, i: nat)
    requires i < |rows|
    ensures PendingRows(rows[..i + 1]) == if rows[i].Status == "pending" then PendingRows(rows[..i]) + [rows[i]] else PendingRows(rows[..i])
    ensures LastWithStatus(rows[..i + 1], "outstanding") == if rows[i].Status == "outstanding" then Some(rows[i]) else LastWithStatus(rows[..i], "outstanding")
  {
    assert rows[..i + 1] == rows[..i] + [rows[i]];
    PendingRowsSnoc(rows[..i], rows[i]);
    LastWithStatusSnoc(rows[..i], rows[i], "outstanding");
  }

  /** Adds up the amounts in order. */
  method Sum(rows: seq<Row>) returns (total: real)
    ensures total == SumAmounts(rows)
  {
    total := 0.0;
    var i := 0;
    while i < |rows|
      invariant i <= |rows| && total == SumAmounts(rows[..i])
    {
      SumAmountsAppend(rows[..i], [rows[i]]);
      assert rows[..i + 1] == rows[..i] + [rows[i]];
      assert [rows[i]][1..] == [];
      total := total + rows[i].Amount;
      i := i + 1;
    }
    assert rows[..i] == rows;
  }

  /** The amount a payment must match. */
  method GetTotalOutstanding(ps: seq<Entity.Payment>) returns (total: real)
    ensures total == OutstandingTotal(Entity.RowsOf(ps))
  {
    var dueDate, week;
    total, dueDate, week := QuoteOpen(ps);
  }

  /** A loan's quote as the outstanding endpoint reports it. */
  datatype OutstandingResponse = OutstandingResponse(
    LoanID: nat, TotalAmount: real, OutstandingAmount: real, DueDate: Model.Day, WeeksOutstanding: int)

  /** What the outstanding endpoint answers for loan `loanID`: the lookup
      error, a nil dereference when the loan has no open payment list, or
      the quote with the due date and week of the quoted payment (zero when
      no payment is outstanding). */
  function QuoteOf(loans: seq<Model.Loan>, rows: seq<Row>, refused: set<Call>, loanID: nat): (q: Result<Option<OutstandingResponse>>)
    ensures q.Err? <==> OpenLoanLookup(loans, rows, refused, loanID).Err? || OutstandingOf(rows, loanID) == []
    ensures q.Ok? ==> q.value.Some? && q.value.value.LoanID == loanID &&
                      q.value.value.OutstandingAmount == OutstandingTotal(OutstandingOf(rows, loanID))
    ensures q.Ok? && q.value.value.WeeksOutstanding != 0 ==>
              exists k :: 0 <= k < |rows| && rows[k].LoanID == loanID && Unsettled(rows[k]) && rows[k].Week == q.value.value.WeeksOutstanding
  {
    var lookup := OpenLoanLookup(loans, rows, refused, loanID);
    var open := OutstandingOf(rows, loanID);
    if lookup.Err? then Err(lookup.error)
    else if open == [] then Err(NilDereference)
    else
      var quoted := QuotedRow(open);
      Ok(Some(OutstandingResponse(loanID, lookup.value.TotalAmount, OutstandingTotal(open),
                                  if quoted.None? then Model.ZeroDay else quoted.value.DueDate,
                                  if quoted.None? then 0 else quoted.value.Week)))
  }

  /** The answer computed from a fetched loan: a nil dereference when it holds
      no payment list, none for an empty one, otherwise the quote of its rows. */
  function QuoteLoaded(c: Entity.LoanCopy): (q: Result<Option<OutstandingResponse>>)
    ensures q.Err? <==> c.Payments.None?
    ensures q.Ok? && q.value.Some? ==> c.Payments.value != [] && q.value.value.LoanID == c.ID &&
                                       q.value.value.OutstandingAmount == OutstandingTotal(c.Payments.value)
  {
    if c.Payments.None? then Err(NilDereference)
    else if c.Payments.value == [] then Ok(None)
    else
      var quoted := QuotedRow(c.Payments.value);
      Ok(Some(OutstandingResponse(c.ID, c.TotalAmount, OutstandingTotal(c.Payments.value),
                                  if quoted.None? then Model.ZeroDay else quoted.value.DueDate,
                                  if quoted.None? then 0 else quoted.value.Week)))
  }

  /** Quoting the loan the lookup fetched is quoting the tables: the entity
      holds no empty payment list, so the answer is never "none". */
  lemma QuoteOfLoaded(loans: seq<Model.Loan>, rows: seq<Row>, refused: set<Call>, loanID: nat)
    requires OpenLoanLookup(loans, rows, refused, loanID).Ok?
    ensures QuoteLoaded(Entity.LoadedCopy(OpenLoanLookup(loans, rows, refused, loanID).value))
            == QuoteOf(loans, rows, refused, loanID)
  {
  }

  /** Reports what a loan's borrower must pay now. */
  method GetOutstanding(store: Store, loanID: nat) returns (r: Result<Option<OutstandingResponse>>)
    requires store.Valid()
    ensures r == QuoteOf(store.loans, store.payments, store.refused, loanID)
  {
    var found := store.GetOutstandingPayments(loanID);
    if found.Err? {
      return Err(found.error);
    }
    r := QuoteLoan(found.value);
    QuoteOfLoaded(store.loans, store.payments, store.refused, loanID);
  }

  /** The use case after the fetch: the loan's payments are classified and
      quoted. */
  method QuoteLoan(loan: Entity.Loan) returns (r: Result<Option<OutstandingResponse>>)
    ensures r == QuoteLoaded(old(loan.Snapshot()))
  {
    if loan.payments.None? {
      return Err(NilDereference);
    }
    var ps := loan.payments.value;
    if |ps| == 0 {
      return Ok(None);
    }
    var id, totalAmount := loan.id, loan.totalAmount;
    ghost var rows := Entity.RowsOf(ps);
    var total, dueDate, week := QuoteOpen(ps);
    assert Entity.RowsOf(ps) == rows;
    return Ok(Some(OutstandingResponse(id, totalAmount, total, dueDate, week)));
  }

  /** The quote over a loan's open payments: its amount, and the due date
      and week of the payment it names, or zero when none is outstanding. */
  method QuoteOpen(ps: seq<Entity.Payment>) returns (total: real, dueDate: Model.Day, week: int)
    ensures total == OutstandingTotal(Entity.RowsOf(ps))
    ensures var quoted := QuotedRow(Entity.RowsOf(ps));
            dueDate == (if quoted.None? then Model.ZeroDay else quoted.value.DueDate) &&
            week == (if quoted.None? then 0 else quoted.value.Week)
  {
    ghost var rows := Entity.RowsOf(ps);
    var pending, outstanding := Classify(ps);
    total, dueDate, week := 0.0, Model.ZeroDay, 0;
    if outstanding.Some? && |pending| == 0 {
      total, dueDate, week := outstanding.value.Amount, outstanding.value.DueDate, outstanding.value.Week;
    } else if outstanding.Some? && |pending| == 1 {
      total, dueDate, week := pending[0].Amount, pending[0].DueDate, pending[0].Week;
    } else if outstanding.Some? && |pending| >= 2 {
      total := Sum(pending);
      total := total + outstanding.value.Amount;
      dueDate, week := outstanding.value.DueDate, outstanding.value.Week;
    }
    assert total == OutstandingTotal(rows) && QuotedRow(rows) == if outstanding.None? then None else if |pending| == 1 then Some(pending[0]) else outstanding;
  }

  /** Accepts an amount within Epsilon of the quote. */
  function ValidateAmount(total: real, amount: real): (err: Option<Error>)
    ensures err.None? <==> AmountMatches(total, amount)
    ensures err.Some? ==> err.value == AmountMismatch
  {
    if Abs(total - amount) > Epsilon then Some(AmountMismatch) else None
  }

  /** Applies a payment to a loan. */
  method MakePayment(store: Store, loanID: nat, amount: real) returns (err: Option<Error>)
    requires store.Valid()
    modifies store`payments, store`loans
    ensures Outcome(err, store.loans, store.payments)
              == PaymentOutcome(old(store.loans), old(store.payments), store.refused, loanID, amount)
    ensures store.Valid()
    ensures Consistency.Consistent(old(store.payments)) ==> Consistency.Consistent(store.payments)
    ensures RowsMoveForward(old(store.payments), store.payments) && ClosedStaysClosed(old(store.loans), store.loans)
  {
    var found := store.GetOutstandingPayments(loanID);
    if found.Err? {
      err := Some(found.error);
    } else if found.value.payments.None? {
      err := Some(NilDereference);
    } else {
      err := PayOpen(store, found.value, found.value.payments.value, amount);
    }
    PaymentKeepsInvariants(old(store.loans), old(store.payments), store.refused, loanID, amount,
                           store.nextPaymentID, store.nextLoanID, Outcome(err, store.loans, store.payments));
    PaymentMovesForward(old(store.loans), old(store.payments), store.refused, loanID, amount);
  }

  /** The rest of a payment once the loan's open payments are loaded: check
      the amount against the quote, mark the covered payments paid, then
      settle the next payment. */
  method PayOpen(store: Store, loan: Entity.Loan, ps: seq<Entity.Payment>, amount: real) returns (err: Option<Error>)
    requires WeekOrdered(store.payments)
    modifies store`payments, store`loans, loan`status
    ensures Outcome(err, store.loans, store.payments)
              == PayOpenOutcome(old(store.loans), old(store.payments), store.refused, loan.id, old(Entity.RowsOf(ps)), amount)
  {
    var total := GetTotalOutstanding(ps);
    var invalid := ValidateAmount(total, amount);
    if invalid.Some? {
      return invalid;
    }
    ghost var before := store.payments;
    ghost var rows := Entity.RowsOf(ps);
    err := UpdatePaid(store, ps, amount);
    if err.Some? {
      return;
    }
    MarkPaidKeepsWeekOrder(before, IDsOf(rows[..Written(rows, amount, store.refused)]));
    err := UpdateNextPayment(store, loan);
  }

  // ------------------------------------------------------------ properties

  /** Storing a new loan keeps the schema's guarantees and the table's consistency. */
  lemma NewLoanKeepsValid(t: Tables, refused: set<Call>, customerID: nat, amount: real, termWeeks: int,
                          rates: real, now: Model.Day)
    requires TablesValid(t)
    ensures TablesValid(NewLoanOutcome(t, refused, customerID, amount, termWeeks, rates, now).1)
    ensures Consistency.Consistent(t.payments) ==>
              Consistency.Consistent(NewLoanOutcome(t, refused, customerID, amount, termWeeks, rates, now).1.payments)
  {
    if Call.SaveLoan !in refused {
      LoanAppendKeepsValid(t.loans, t.nextLoanID, NewLoanRecord(t.nextLoanID, customerID, amount, termWeeks, rates, now));
      assert RowsValid(t.payments, t.nextPaymentID, t.nextLoanID + 1);
      if Call.SavePayments !in refused {
        ScheduleAppendKeepsValid(t.payments, t.nextPaymentID, t.nextLoanID,
                                 Instalment(TotalAmount(amount, rates), termWeeks), Weeks(termWeeks), now);
      }
    }
  }

  /** A loan stored under the next loan id keeps the loans table valid. */
  lemma LoanAppendKeepsValid(loans: seq<Model.Loan>, nextLoanID: nat, record: Model.Loan)
    requires LoansValid(loans, nextLoanID) && record.ID == nextLoanID && KnownLoanName(record)
    ensures LoansValid(loans + [record], nextLoanID + 1)
  {
    var all := loans + [record];
    forall k | 0 <= k < |all| ensures all[k].ID < nextLoanID + 1 && KnownLoanName(all[k]) {
      if k < |loans| {
        assert all[k] == loans[k];
      }
    }
  }

  /** The schedule of a loan stored under the next loan id, numbered from the
      next payment id, keeps the payments table valid and consistent. */
  lemma ScheduleAppendKeepsValid(rows: seq<Row>, nextPaymentID: nat, nextLoanID: nat, instalment: real, weeks: nat,
                                 now: Model.Day)
    requires RowsValid(rows, nextPaymentID, nextLoanID)
    ensures var added := Numbered(Schedule(nextLoanID, instalment, weeks, now), nextPaymentID);
            RowsValid(rows + added, nextPaymentID + weeks, nextLoanID + 1) &&
            (Consistency.Consistent(rows) ==> Consistency.Consistent(rows + added))
  {
    var added := Numbered(Schedule(nextLoanID, instalment, weeks, now), nextPaymentID);
    var after := rows + added;
    forall k | 0 <= k < |after|
      ensures KnownPaymentName(after[k])
      ensures after[k].ID < nextPaymentID + weeks && after[k].LoanID < nextLoanID + 1
    {
      if k < |rows| {
        assert after[k] == rows[k] && KnownPaymentName(rows[k]);
      } else {
        assert after[k] == added[k - |rows|];
      }
    }
    forall i, j | 0 <= i < j < |after| ensures after[i].ID != after[j].ID {
      if j >= |rows| {
        assert after[j] == added[j - |rows|];
        if i >= |rows| {
          assert after[i] == added[i - |rows|];
        }
      }
    }
    forall r | r in rows ensures r.LoanID != nextLoanID {
      var k :| 0 <= k < |rows| && rows[k] == r;
    }
    Consistency.AppendScheduleKeepsConsistent(rows, added, nextLoanID);
  }

  /** The step after a payment keeps both tables valid. */
  lemma NextPaymentStepKeepsValid(loans: seq<Model.Loan>, rows: seq<Row>, refused: set<Call>, loanID: nat,
                                  nextPaymentID: nat, nextLoanID: nat)
    requires RowsValid(rows, nextPaymentID, nextLoanID) && LoansValid(loans, nextLoanID)
    ensures var after := NextPaymentStep(loans, rows, refused, loanID);
            RowsValid(after.payments, nextPaymentID, nextLoanID) && LoansValid(after.loans, nextLoanID)
  {
    var next := NextRow(rows, loanID);
    if next.None? {
      WithLoanStatusKeepsValid(loans, loanID, "close", nextLoanID);
    } else {
      WithStatusKeepsValid(rows, next.value.ID, "outstanding", nextPaymentID, nextLoanID);
    }
  }

  /** A payment, accepted or not, completed or not, keeps both tables valid. */
  lemma PaymentKeepsValid(loans: seq<Model.Loan>, rows: seq<Row>, refused: set<Call>, loanID: nat, amount: real,
                          nextPaymentID: nat, nextLoanID: nat)
    requires RowsValid(rows, nextPaymentID, nextLoanID) && LoansValid(loans, nextLoanID)
    ensures var after := PaymentOutcome(loans, rows, refused, loanID, amount);
            RowsValid(after.payments, nextPaymentID, nextLoanID) && LoansValid(after.loans, nextLoanID)
  {
    var open := OutstandingOf(rows, loanID);
    if OpenLoanLookup(loans, rows, refused, loanID).Ok? && open != [] {
      assert PaymentOutcome(loans, rows, refused, loanID, amount) == PayOpenOutcome(loans, rows, refused, loanID, open, amount);
      PayOpenKeepsValid(loans, rows, refused, loanID, open, amount, nextPaymentID, nextLoanID);
    }
  }

  lemma PayOpenKeepsValid(loans: seq<Model.Loan>, rows: seq<Row>, refused: set<Call>, loanID: nat, open: seq<Row>,
                          amount: real, nextPaymentID: nat, nextLoanID: nat)
    requires RowsValid(rows, nextPaymentID, nextLoanID) && LoansValid(loans, nextLoanID)
    ensures var after := PayOpenOutcome(loans, rows, refused, loanID, open, amount);
            RowsValid(after.payments, nextPaymentID, nextLoanID) && LoansValid(after.loans, nextLoanID)
  {
    if AmountMatches(OutstandingTotal(open), amount) {
      var ids := IDsOf(open[..Written(open, amount, refused)]);
      MarkPaidKeepsValid(rows, ids, nextPaymentID, nextLoanID);
      NextPaymentStepKeepsValid(loans, MarkPaid(rows, ids), refused, loanID, nextPaymentID, nextLoanID);
    }
  }

  /** The step after a payment keeps the payment table consistent. */
  lemma NextPaymentStepKeepsConsistent(loans: seq<Model.Loan>, rows: seq<Row>, refused: set<Call>, loanID: nat)
    requires UniqueIDs(rows) && Consistency.Consistent(rows)
    ensures Consistency.Consistent(NextPaymentStep(loans, rows, refused, loanID).payments)
  {
    if NextIndex(rows, loanID) >= 0 && rows[NextIndex(rows, loanID)].Status == "scheduled" {
      Consistency.PromoteNextKeepsConsistent(rows, loanID);
    }
  }

  /** Hence a payment keeps the store within its invariants. */
  lemma PaymentKeepsInvariants(loans: seq<Model.Loan>, rows: seq<Row>, refused: set<Call>, loanID: nat, amount: real,
                               nextPaymentID: nat, nextLoanID: nat, after: Outcome)
    requires RowsValid(rows, nextPaymentID, nextLoanID) && LoansValid(loans, nextLoanID)
    requires after == PaymentOutcome(loans, rows, refused, loanID, amount)
    ensures RowsValid(after.payments, nextPaymentID, nextLoanID) && LoansValid(after.loans, nextLoanID)
    ensures Consistency.Consistent(rows) ==> Consistency.Consistent(after.payments)
  {
    PaymentKeepsValid(loans, rows, refused, loanID, amount, nextPaymentID, nextLoanID);
    if Consistency.Consistent(rows) {
      PaymentKeepsConsistent(loans, rows, refused, loanID, amount);
    }
  }

  /** A payment keeps the payment table consistent. */
  lemma PaymentKeepsConsistent(loans: seq<Model.Loan>, rows: seq<Row>, refused: set<Call>, loanID: nat, amount: real)
    requires UniqueIDs(rows) && Consistency.Consistent(rows)
    ensures Consistency.Consistent(PaymentOutcome(loans, rows, refused, loanID, amount).payments)
  {
    var open := OutstandingOf(rows, loanID);
    var ids := IDsOf(open[..Written(open, amount, refused)]);
    var paid := MarkPaid(rows, ids);
    Consistency.MarkPaidKeepsConsistent(rows, ids);
    assert UniqueIDs(paid) by {
      assert forall k :: 0 <= k < |rows| ==> paid[k].ID == rows[k].ID;
    }
    NextPaymentStepKeepsConsistent(loans, paid, refused, loanID);
  }

  // ------------------------------------------- statuses only move forward

  /** Each row keeps everything but its status, no status moves back in the
      order scheduled, outstanding, pending, paid, and a paid row stays as it is. */
  predicate RowsMoveForward(before: seq<Row>, after: seq<Row>)
  {
    |after| == |before| &&
    forall k :: 0 <= k < |before| ==>
      after[k] == before[k].(Status := after[k].Status) &&
      Reconciliation.StatusRank(after[k].Status) >= Reconciliation.StatusRank(before[k].Status) &&
      (before[k].Status == "paid" ==> after[k] == before[k])
  }

  /** Each loan keeps everything but its status, and a closed loan stays as it is. */
  predicate ClosedStaysClosed(before: seq<Model.Loan>, after: seq<Model.Loan>)
  {
    |after| == |before| &&
    forall k :: 0 <= k < |before| ==>
      after[k] == before[k].(Status := after[k].Status) &&
      (before[k].Status == "close" ==> after[k] == before[k])
  }

  lemma MovesForwardTransitive(a: seq<Row>, b: seq<Row>, c: seq<Row>)
    requires RowsMoveForward(a, b) && RowsMoveForward(b, c)
    ensures RowsMoveForward(a, c)
  {
    forall k | 0 <= k < |a|
      ensures c[k] == a[k].(Status := c[k].Status)
    {
      assert b[k] == a[k].(Status := b[k].Status);
    }
  }

  /** The step after a payment only promotes a scheduled payment to
      outstanding, or closes the loan. */
  lemma NextPaymentStepMovesForward(loans: seq<Model.Loan>, rows: seq<Row>, refused: set<Call>, loanID: nat)
    requires UniqueIDs(rows)
    ensures var after := NextPaymentStep(loans, rows, refused, loanID);
            RowsMoveForward(rows, after.payments) && ClosedStaysClosed(loans, after.loans)
  {
    var n := NextIndex(rows, loanID);
    if n >= 0 && rows[n].Status == "scheduled" {
      forall k | 0 <= k < |rows| && rows[k].ID == rows[n].ID ensures k == n {
        UniqueIDsSameRow(rows, k, n);
      }
    }
  }

  /** Marking payments paid moves them forward and keeps their ids. */
  lemma MarkPaidMovesForward(rows: seq<Row>, ids: set<nat>)
    requires UniqueIDs(rows)
    ensures RowsMoveForward(rows, MarkPaid(rows, ids)) && UniqueIDs(MarkPaid(rows, ids))
  {
    var paid := MarkPaid(rows, ids);
    assert forall k :: 0 <= k < |rows| ==> paid[k].ID == rows[k].ID;
  }

  /** A payment, whatever its outcome, only marks payments paid, promotes a
      scheduled payment or closes the loan: no status moves back, a paid
      payment stays paid and a closed loan stays closed. */
  lemma PaymentMovesForward(loans: seq<Model.Loan>, rows: seq<Row>, refused: set<Call>, loanID: nat, amount: real)
    requires UniqueIDs(rows)
    ensures var after := PaymentOutcome(loans, rows, refused, loanID, amount);
            RowsMoveForward(rows, after.payments) && ClosedStaysClosed(loans, after.loans)
  {
    var open := OutstandingOf(rows, loanID);
    if OpenLoanLookup(loans, rows, refused, loanID).Ok? && open != [] {
      assert PaymentOutcome(loans, rows, refused, loanID, amount) == PayOpenOutcome(loans, rows, refused, loanID, open, amount);
      PayOpenMovesForward(loans, rows, refused, loanID, open, amount);
    }
  }

  lemma PayOpenMovesForward(loans: seq<Model.Loan>, rows: seq<Row>, refused: set<Call>, loanID: nat,
                            open: seq<Row>, amount: real)
    requires UniqueIDs(rows)
    ensures var after := PayOpenOutcome(loans, rows, refused, loanID, open, amount);
            RowsMoveForward(rows, after.payments) && ClosedStaysClosed(loans, after.loans)
  {
    if AmountMatches(OutstandingTotal(open), amount) {
      var paid := MarkPaid(rows, IDsOf(open[..Written(open, amount, refused)]));
      MarkPaidMovesForward(rows, IDsOf(open[..Written(open, amount, refused)]));
      if FirstRefused(open, refused) >= PaidPrefix(open, amount) {
        var step := NextPaymentStep(loans, paid, refused, loanID);
        NextPaymentStepMovesForward(loans, paid, refused, loanID);
        MovesForwardTransitive(rows, paid, step.payments);
      }
    }
  }

  // ------------------------------------------------- quoting and paying

  /** A loan that cannot be quoted cannot be paid either, for the same reason
      and without any write; one that can is refused a payment exactly when
      the amount is not within Epsilon of its quote. */
  lemma QuoteMatchesPayment(loans: seq<Model.Loan>, rows: seq<Row>, refused: set<Call>, loanID: nat, amount: real)
    ensures QuoteOf(loans, rows, refused, loanID).Err? ==>
              PaymentOutcome(loans, rows, refused, loanID, amount)
                == Outcome(Some(QuoteOf(loans, rows, refused, loanID).error), loans, rows)
    ensures QuoteOf(loans, rows, refused, loanID).Ok? ==>
              (PaymentOutcome(loans, rows, refused, loanID, amount).err == Some(AmountMismatch) <==>
               !AmountMatches(QuoteOf(loans, rows, refused, loanID).value.value.OutstandingAmount, amount))
    ensures PaymentOutcome(loans, rows, refused, loanID, amount).err == Some(AmountMismatch) ==>
              PaymentOutcome(loans, rows, refused, loanID, amount) == Outcome(Some(AmountMismatch), loans, rows)
  {
    var open := OutstandingOf(rows, loanID);
    if QuoteOf(loans, rows, refused, loanID).Ok? {
      assert QuoteOf(loans, rows, refused, loanID).value.value.OutstandingAmount == OutstandingTotal(open);
      assert PaymentOutcome(loans, rows, refused, loanID, amount) == PayOpenOutcome(loans, rows, refused, loanID, open, amount);
      PayOpenMismatch(loans, rows, refused, loanID, open, amount);
    }
  }

  /** The only mismatch a payment on open rows reports is a wrong amount. */
  lemma PayOpenMismatch(loans: seq<Model.Loan>, rows: seq<Row>, refused: set<Call>, loanID: nat,
                        open: seq<Row>, amount: real)
    ensures PayOpenOutcome(loans, rows, refused, loanID, open, amount).err == Some(AmountMismatch) <==>
              !AmountMatches(OutstandingTotal(open), amount)
    ensures PayOpenOutcome(loans, rows, refused, loanID, open, amount).err == Some(AmountMismatch) ==>
              PayOpenOutcome(loans, rows, refused, loanID, open, amount) == Outcome(Some(AmountMismatch), loans, rows)
  {
    if AmountMatches(OutstandingTotal(open), amount) {
      var paid := MarkPaid(rows, IDsOf(open[..Written(open, amount, refused)]));
      var step := NextPaymentStep(loans, paid, refused, loanID);
      assert step.err.Some? ==> step.err.value != AmountMismatch;
    }
  }

  /** Without storage faults, an accepted payment settles every open row it
      covers and then takes the step after a payment. */
  lemma PayOpenFaultFree(loans: seq<Model.Loan>, rows: seq<Row>, loanID: nat, open: seq<Row>, amount: real)
    requires AmountMatches(OutstandingTotal(open), amount)
    ensures PayOpenOutcome(loans, rows, {}, loanID, open, amount)
              == NextPaymentStep(loans, MarkPaid(rows, IDsOf(open[..PaidPrefix(open, amount)])), {}, loanID)
  {
    assert FirstRefused(open, {}) == |open|;
  }

  /** Without storage faults, paying exactly the quote of a loan that has a
      current instalment is accepted and settles every quoted instalment: all
      of the loan's open payments, or the single pending one when exactly one
      is pending; the loan then moves on. */
  lemma PayingQuoteSettles(loans: seq<Model.Loan>, rows: seq<Row>, loanID: nat)
    requires Consistency.Consistent(rows)
    requires QuoteOf(loans, rows, {}, loanID).Ok?
    requires forall k :: 0 <= k < |rows| && rows[k].LoanID == loanID ==> rows[k].Amount > 0.0
    requires CountStatus(OutstandingOf(rows, loanID), "outstanding") > 0
    ensures var open := OutstandingOf(rows, loanID);
            var settled := if |PendingRows(open)| == 1 then 1 else |open|;
            var after := PaymentOutcome(loans, rows, {}, loanID, QuoteOf(loans, rows, {}, loanID).value.value.OutstandingAmount);
            after.err.None? && after == NextPaymentStep(loans, MarkPaid(rows, IDsOf(open[..settled])), {}, loanID)
  {
    var open := OutstandingOf(rows, loanID);
    var total := OutstandingTotal(open);
    assert QuoteOf(loans, rows, {}, loanID).value.value.OutstandingAmount == total;
    assert PaymentOutcome(loans, rows, {}, loanID, total) == PayOpenOutcome(loans, rows, {}, loanID, open, total);
    Consistency.OutstandingOfSplit(rows, loanID);
    var current := open[|open| - 1];
    var pending := PendingRows(open);
    assert open == pending + [current];
    forall i | 0 <= i < |pending| ensures pending[i].Status == "pending" && pending[i].Amount > 0.0 {
      assert open[i] in open;
    }
    assert current in open;
    PayingQuoteSettlesQuoted(pending, current);
    var settled := if |pending| == 1 then 1 else |open|;
    assert PaidPrefix(open, total) == settled;
    PayOpenFaultFree(loans, rows, loanID, open, total);
    var after := NextPaymentStep(loans, MarkPaid(rows, IDsOf(open[..settled])), {}, loanID);
    NextPaymentStepFaultFree(loans, MarkPaid(rows, IDsOf(open[..settled])), loanID);
    assert PaymentOutcome(loans, rows, {}, loanID, total) == after;
  }

  /** Without storage faults, the step after a payment reports no error. */
  lemma NextPaymentStepFaultFree(loans: seq<Model.Loan>, rows: seq<Row>, loanID: nat)
    ensures NextPaymentStep(loans, rows, {}, loanID).err.None?
  {
  }

  /** Without storage faults, the step after a payment closes the loan when
      none of its payments is scheduled or outstanding, and otherwise leaves
      the loan open with its next payment outstanding. */
  lemma NextPaymentStepMovesOn(loans: seq<Model.Loan>, rows: seq<Row>, loanID: nat)
    requires UniqueIDs(rows)
    ensures var after := NextPaymentStep(loans, rows, {}, loanID);
            after.err.None? &&
            (NextRow(rows, loanID).None? ==> after.loans == WithLoanStatus(loans, loanID, "close") && after.payments == rows) &&
            (NextRow(rows, loanID).Some? ==>
               after.loans == loans && NextRow(after.payments, loanID).Some? &&
               NextRow(after.payments, loanID).value.Status == "outstanding")
  {
    if NextRow(rows, loanID).Some? {
      PromoteKeepsNext(rows, loanID);
    }
  }

  /** Without storage faults, an accepted payment leaves the loan either
      closed or with its next payment outstanding. */
  lemma AcceptedPaymentMovesOn(loans: seq<Model.Loan>, rows: seq<Row>, loanID: nat, amount: real)
    requires UniqueIDs(rows)
    requires PaymentOutcome(loans, rows, {}, loanID, amount).err.None?
    ensures var after := PaymentOutcome(loans, rows, {}, loanID, amount);
            after.loans == WithLoanStatus(loans, loanID, "close") ||
            (after.loans == loans && NextRow(after.payments, loanID).Some? &&
             NextRow(after.payments, loanID).value.Status == "outstanding")
  {
    var open := OutstandingOf(rows, loanID);
    var paid := MarkPaid(rows, IDsOf(open[..Written(open, amount, {})]));
    assert PaymentOutcome(loans, rows, {}, loanID, amount) == PayOpenOutcome(loans, rows, {}, loanID, open, amount);
    assert PayOpenOutcome(loans, rows, {}, loanID, open, amount) == NextPaymentStep(loans, paid, {}, loanID);
    MarkPaidMovesForward(rows, IDsOf(open[..Written(open, amount, {})]));
    NextPaymentStepMovesOn(loans, paid, loanID);
  }

  // ---------------------------------------- closing a loan with arrears

  /** The source's closing rule lets a payment close a loan whose only open
      payment is pending: with no outstanding payment the quote is zero, a
      zero payment is accepted, settles nothing, and since nothing is
      scheduled or outstanding the loan is closed. */
  lemma ZeroPaymentClosesLoanInArrears()
    ensures var loans := [Model.Loan(1, 1, 100.0, 110.0, "open", 1, 10.0, 0, Model.ZeroDay, None)];
            var rows := [Model.Payment(1, 1, 1, 110.0, 7, "pending")];
            QuoteOf(loans, rows, {}, 1) == Ok(Some(OutstandingResponse(1, 110.0, 0.0, Model.ZeroDay, 0))) &&
            PaymentOutcome(loans, rows, {}, 1, 0.0) == Outcome(None, [loans[0].(Status := "close")], rows)
  {
    var loans := [Model.Loan(1, 1, 100.0, 110.0, "open", 1, 10.0, 0, Model.ZeroDay, None)];
    var rows := [Model.Payment(1, 1, 1, 110.0, 7, "pending")];
    assert rows[1..] == [];
    assert OutstandingOf(rows, 1) == rows;
    assert NextIndex(rows, 1) == -1;
    assert FindLoan(loans, 1) == Some(loans[0]);
    assert Entity.FirstUnknownStatus(rows) == 1;
    assert CountStatus(rows, "outstanding") == 0;
    assert LastWithStatus(rows, "outstanding") == None;
    assert PaidPrefix(rows, 0.0) == 0;
  }

  /** The step after a payment as evidently intended: the loan is closed only
      when none of its payments is scheduled, outstanding or pending. */
  function SettledNextPaymentStep(loans: seq<Model.Loan>, rows: seq<Row>, refused: set<Call>, loanID: nat): Outcome
  {
    if NextRow(rows, loanID).None? && OutstandingOf(rows, loanID) != [] then Outcome(None, loans, rows)
    else NextPaymentStep(loans, rows, refused, loanID)
  }

  /** Without storage faults, the intended step closes a loan exactly when
      every payment of it is paid. */
  lemma SettledStepClosesPaidLoans(loans: seq<Model.Loan>, rows: seq<Row>, loanID: nat)
    requires forall k :: 0 <= k < |rows| ==> KnownPaymentName(rows[k])
    ensures SettledNextPaymentStep(loans, rows, {}, loanID).loans ==
              if forall k :: 0 <= k < |rows| && rows[k].LoanID == loanID ==> rows[k].Status == "paid"
              then WithLoanStatus(loans, loanID, "close") else loans
  {
    var open := OutstandingOf(rows, loanID);
    if forall k :: 0 <= k < |rows| && rows[k].LoanID == loanID ==> rows[k].Status == "paid" {
      forall r | r in rows && r.LoanID == loanID ensures !Unsettled(r) {
        var k :| 0 <= k < |rows| && rows[k] == r;
      }
      Consistency.NoOpenRows(rows, loanID);
      assert NextIndex(rows, loanID) < 0;
    } else {
      var k :| 0 <= k < |rows| && rows[k].LoanID == loanID && rows[k].Status != "paid";
      if NextRow(rows, loanID).None? {
        assert rows[k] in open;
      }
    }
  }
}
