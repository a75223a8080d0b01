// The customer, loan and payment repositories over one in-memory database:
// three tables kept in insertion order, with serial ids for loans and
// payments. Each method does what its query selects or updates; a call the
// store refuses fails and writes nothing.

module Repository {
  import opened Results
  import opened Enum
  import Model
  import opened Queries
  import Entity

  /** A stored payment status the database's enum type accepts. */
  predicate KnownPaymentName(r: Row)
  {
    r.Status in PaymentStatusNames
  }

  predicate KnownLoanName(l: Model.Loan)
  {
    l.Status in LoanStatusNames
  }

  /** What the schema guarantees of the payments table: statuses within
      the enum type, unique serial ids below the next one to hand out,
      loan ids already handed out, and each loan's payments stored in week
      order. */
  ghost predicate RowsValid(rows: seq<Row>, nextPaymentID: nat, nextLoanID: nat)
  {
    (forall k :: 0 <= k < |rows| ==> KnownPaymentName(rows[k])) &&
    (forall k :: 0 <= k < |rows| ==> rows[k].ID < nextPaymentID && rows[k].LoanID < nextLoanID) &&
    UniqueIDs(rows) && WeekOrdered(rows)
  }

  /** What the schema guarantees of the loans table. */
  ghost predicate LoansValid(loans: seq<Model.Loan>, nextLoanID: nat)
  {
    forall k :: 0 <= k < |loans| ==> loans[k].ID < nextLoanID && KnownLoanName(loans[k])
  }

  /** Two tables holding the same rows except, possibly, for their statuses. */
  predicate SameRowsButStatus(before: seq<Row>, after: seq<Row>)
  {
    |after| == |before| && forall k :: 0 <= k < |before| ==> after[k] == before[k].(Status := after[k].Status)
  }

  /** Rewriting statuses with known names keeps the payments table valid. */
  lemma StatusChangeKeepsValid(before: seq<Row>, after: seq<Row>, nextPaymentID: nat, nextLoanID: nat)
    requires RowsValid(before, nextPaymentID, nextLoanID) && SameRowsButStatus(before, after)
    requires forall k :: 0 <= k < |after| ==> KnownPaymentName(after[k])
    ensures RowsValid(after, nextPaymentID, nextLoanID)
  {
    forall i, j | 0 <= i < j < |after| && after[i].LoanID == after[j].LoanID
      ensures after[i].Week < after[j].Week && after[i].DueDate + 7 <= after[j].DueDate
    {
      assert before[i].LoanID == before[j].LoanID;
    }
  }

  /** Writing a known status into the rows with one id keeps the payments table valid. */
  lemma WithStatusKeepsValid(rows: seq<Row>, id: nat, status: string, nextPaymentID: nat, nextLoanID: nat)
    requires RowsValid(rows, nextPaymentID, nextLoanID) && status in PaymentStatusNames
    ensures RowsValid(WithStatus(rows, id, status), nextPaymentID, nextLoanID)
  {
    var after := WithStatus(rows, id, status);
    forall k | 0 <= k < |after| ensures KnownPaymentName(after[k]) {
      assert KnownPaymentName(rows[k]);
    }
    StatusChangeKeepsValid(rows, after, nextPaymentID, nextLoanID);
  }

  /** Marking rows paid keeps the payments table valid. */
  lemma MarkPaidKeepsValid(rows: seq<Row>, ids: set<nat>, nextPaymentID: nat, nextLoanID: nat)
    requires RowsValid(rows, nextPaymentID, nextLoanID)
    ensures RowsValid(MarkPaid(rows, ids), nextPaymentID, nextLoanID)
  {
    var after := MarkPaid(rows, ids);
    forall k | 0 <= k < |after| ensures KnownPaymentName(after[k]) {
      assert KnownPaymentName(rows[k]);
    }
    StatusChangeKeepsValid(rows, after, nextPaymentID, nextLoanID);
  }

  /** Writing a known status into a loan keeps the loans table valid. */
  lemma WithLoanStatusKeepsValid(loans: seq<Model.Loan>, id: nat, status: string, nextLoanID: nat)
    requires LoansValid(loans, nextLoanID) && status in LoanStatusNames
    ensures LoansValid(WithLoanStatus(loans, id, status), nextLoanID)
  {
    var after := WithLoanStatus(loans, id, status);
    forall k | 0 <= k < |after| ensures after[k].ID < nextLoanID && KnownLoanName(after[k]) {
      assert KnownLoanName(loans[k]);
    }
  }

  /** A loan record with every stored payment of it attached. */
  function WithPayments(l: Model.Loan, rows: seq<Row>): (m: Model.Loan)
    ensures m.(Payments := l.Payments) == l
    ensures m.Payments == Some(PaymentsOf(rows, l.ID))
  {
    l.(Payments := Some(PaymentsOf(rows, l.ID)))
  }

  /** A customer record as read with its loans and their payments preloaded. */
  function Preloaded(c: Model.Customer, loans: seq<Model.Loan>, rows: seq<Row>): (m: Model.Customer)
    ensures m.ID == c.ID && m.Name == c.Name && m.Email == c.Email && m.Loans.Some?
    ensures |m.Loans.value| == |LoansOf(loans, c.ID)|
    ensures forall k :: 0 <= k < |m.Loans.value| ==> m.Loans.value[k] == WithPayments(LoansOf(loans, c.ID)[k], rows)
  {
    var mine := LoansOf(loans, c.ID);
    c.(Loans := Some(seq(|mine|, k requires 0 <= k < |mine| => WithPayments(mine[k], rows))))
  }

  /** A loan record with only its pending and outstanding payments attached. */
  function WithOpenPayments(l: Model.Loan, rows: seq<Row>): (m: Model.Loan)
    ensures m.(Payments := l.Payments) == l
    ensures m.Payments == Some(OutstandingOf(rows, l.ID))
  {
    l.(Payments := Some(OutstandingOf(rows, l.ID)))
  }

  /** What looking up a loan with its open payments answers: the record,
      with its pending and outstanding payments in table order, or the error. */
  function OpenLoanLookup(loans: seq<Model.Loan>, rows: seq<Row>, refused: set<Call>, loanID: nat): (r: Result<Model.Loan>)
    ensures r.Ok? ==> r.value.ID == loanID && r.value.Payments == Some(OutstandingOf(rows, loanID)) && Entity.Loadable(r.value)
  {
    if Call.GetOutstandingPayments in refused then Err(Wrapped("failed to retrieve outstanding payments", StorageFailure))
    else if FindLoan(loans, loanID).None? then Err(RecordNotFound)
    else
      var m := WithOpenPayments(FindLoan(loans, loanID).value, rows);
      if Entity.Loadable(m) then Ok(m) else Err(Wrapped("failed to convert model to entity", Entity.MakeLoanError(m)))
  }

  /** Rows as the payments table stores them: serial ids from `first`, in order. */
  function Numbered(rows: seq<Row>, first: nat): (stored: seq<Row>)
    ensures |stored| == |rows|
    ensures forall k :: 0 <= k < |rows| ==> stored[k] == rows[k].(ID := first + k)
  {
    seq(|rows|, k requires 0 <= k < |rows| => rows[k].(ID := first + k))
  }

  /** Every payment the daily query fetches carries a status the entity accepts. */
  lemma FetchedStatusesKnown(rows: seq<Row>, nextWeek: Model.Day)
    ensures forall k :: 0 <= k < |Due(rows, nextWeek)| ==> KnownPaymentName(Due(rows, nextWeek)[k])
    ensures Entity.FirstUnknownStatus(Due(rows, nextWeek)) == |Due(rows, nextWeek)|
  {
    var due := Due(rows, nextWeek);
    forall k | 0 <= k < |due| ensures KnownPaymentName(due[k]) {
      assert due[k] in due;
    }
  }

  class Store {
    var customers: seq<Model.Customer>
    var loans: seq<Model.Loan>
    var payments: seq<Row>
    var nextLoanID: nat
    var nextPaymentID: nat
    const refused: set<Call>

    /** What the schema guarantees of the stored tables. */
    ghost predicate Valid()
      reads this
    {
      RowsValid(payments, nextPaymentID, nextLoanID) && LoansValid(loans, nextLoanID)
    }

    constructor (refused: set<Call>)
      ensures this.refused == refused
      ensures customers == [] && loans == [] && payments == []
      ensures nextLoanID == 1 && nextPaymentID == 1
      ensures Valid()
    {
      this.refused := refused;
      customers := [];
      loans := [];
      payments := [];
      nextLoanID := 1;
      nextPaymentID := 1;
    }

    // ------------------------------------------------------------ customers

    /** The customer with its loans and their payments, rebuilt as an entity. */
    method GetCustomerByID(id: nat) returns (r: Result<Entity.Customer>)
      ensures Call.GetCustomerByID in refused ==> r == Err(Wrapped("failed to retrieve customer", StorageFailure))
      ensures Call.GetCustomerByID !in refused && FindCustomer(customers, id).None? ==> r == Err(RecordNotFound)
      ensures Call.GetCustomerByID !in refused && FindCustomer(customers, id).Some? ==>
                var m := Preloaded(FindCustomer(customers, id).value, loans, payments);
                (r.Ok? <==> Entity.CustomerLoadable(m)) &&
                (r.Err? ==> r.error == Entity.MakeLoanError(m.Loans.value[Entity.FirstUnloadable(m.Loans.value)])) &&
                (r.Ok? ==> fresh(r.value) && r.value.id == id && r.value.name == m.Name && r.value.email == m.Email) &&
                (r.Ok? ==> r.value.loans == Entity.LoadedLoans(m))
    {
      if Call.GetCustomerByID in refused {
        return Err(Wrapped("failed to retrieve customer", StorageFailure));
      }
      var found := FindCustomer(customers, id);
      if found.None? {
        return Err(RecordNotFound);
      }
      r := Entity.MakeCustomer(Preloaded(found.value, loans, payments));
    }

    /** Inserts a customer; the primary key and the e-mail address are unique. */
    method SaveCustomer(c: Entity.Customer) returns (err: Option<Error>)
      modifies this
      ensures err.Some? <==> (Call.SaveCustomer in refused ||
                exists k :: 0 <= k < |old(customers)| && (old(customers)[k].ID == c.id || old(customers)[k].Email == c.email))
      ensures err.Some? ==> err.value == Wrapped("failed to save customer", StorageFailure) && customers == old(customers)
      ensures err.None? ==> customers == old(customers) + [Model.Customer(c.id, c.name, c.email, None)]
      ensures loans == old(loans) && payments == old(payments)
      ensures nextLoanID == old(nextLoanID) && nextPaymentID == old(nextPaymentID)
    {
      if Call.SaveCustomer in refused || exists k :: 0 <= k < |customers| && (customers[k].ID == c.id || customers[k].Email == c.email) {
        return Some(Wrapped("failed to save customer", StorageFailure));
      }
      var m := c.ToModel();
      customers := customers + [m.(Loans := None)];
      err := None;
    }

    // ---------------------------------------------------------------- loans

    /** Inserts a loan under the next serial id and gives the entity that id;
        the loan must belong to a stored customer. */
    method SaveLoan(l: Entity.Loan) returns (err: Option<Error>)
      modifies this, l`id
      ensures err.Some? <==> Call.SaveLoan in refused || FindCustomer(old(customers), l.customerID).None?
      ensures err.Some? ==> err.value == Wrapped("failed to save loan", StorageFailure)
      ensures err.Some? ==> loans == old(loans) && nextLoanID == old(nextLoanID) && l.id == old(l.id)
      ensures err.None? ==> l.id == old(nextLoanID) && nextLoanID == old(nextLoanID) + 1
      ensures err.None? ==> loans == old(loans) + [Model.Loan(l.id, l.customerID, l.amount, l.totalAmount,
                                                     l.GetStatus(), l.termWeeks, l.rates, l.createdAt, l.updatedAt, None)]
      ensures customers == old(customers) && payments == old(payments) && nextPaymentID == old(nextPaymentID)
    {
      if Call.SaveLoan in refused || FindCustomer(customers, l.customerID).None? {
        return Some(Wrapped("failed to save loan", StorageFailure));
      }
      var id := nextLoanID;
      loans := loans + [Model.Loan(id, l.customerID, l.amount, l.totalAmount,
                                   l.GetStatus(), l.termWeeks, l.rates, l.createdAt, l.updatedAt, None)];
      nextLoanID := nextLoanID + 1;
      l.SetID(id);
      err := None;
    }

    /** The loan with only its pending and outstanding payments, by week. */
    method GetOutstandingPayments(loanID: nat) returns (r: Result<Entity.Loan>)
      requires Valid()
      ensures r.Err? ==> OpenLoanLookup(loans, payments, refused, loanID) == Err(r.error)
      ensures r.Ok? ==> OpenLoanLookup(loans, payments, refused, loanID).Ok? &&
                        fresh(r.value) && fresh(r.value.PaymentObjects()) &&
                        r.value.Snapshot() == Entity.LoadedCopy(OpenLoanLookup(loans, payments, refused, loanID).value)
      ensures r.Ok? ==> WeekSorted(OpenLoanLookup(loans, payments, refused, loanID).value.Payments.value)
    {
      OutstandingOfWeekSorted(payments, loanID);
      if Call.GetOutstandingPayments in refused {
        return Err(Wrapped("failed to retrieve outstanding payments", StorageFailure));
      }
      var found := FindLoan(loans, loanID);
      if found.None? {
        return Err(RecordNotFound);
      }
      var made := Entity.MakeLoan(WithOpenPayments(found.value, payments));
      if made.Err? {
        return Err(Wrapped("failed to convert model to entity", made.error));
      }
      r := made;
    }

    /** Writes the entity's status to the loan row with its id. */
    method UpdateLoanStatus(l: Entity.Loan) returns (err: Option<Error>)
      modifies this`loans
      ensures Call.UpdateLoanStatus(l.id) in refused ==>
                err == Some(Wrapped("failed to update loan status", StorageFailure)) && loans == old(loans)
      ensures Call.UpdateLoanStatus(l.id) !in refused ==> err.None? && loans == WithLoanStatus(old(loans), l.id, l.GetStatus())
    {
      if Call.UpdateLoanStatus(l.id) in refused {
        return Some(Wrapped("failed to update loan status", StorageFailure));
      }
      loans := WithLoanStatus(loans, l.id, l.GetStatus());
      err := None;
    }

    /** Inserts the rows of the payments under consecutive serial ids. */
    method SavePayments(ps: seq<Entity.Payment>) returns (err: Option<Error>)
      modifies this`payments, this`nextPaymentID
      ensures Call.SavePayments in refused ==> err == Some(StorageFailure) && payments == old(payments)
      ensures Call.SavePayments in refused ==> nextPaymentID == old(nextPaymentID)
      ensures Call.SavePayments !in refused ==> err.None? && nextPaymentID == old(nextPaymentID) + |ps|
      ensures Call.SavePayments !in refused ==> payments == old(payments) + Numbered(Entity.RowsOf(ps), old(nextPaymentID))
    {
      if Call.SavePayments in refused {
        return Some(StorageFailure);
      }
      payments := payments + Numbered(Entity.RowsOf(ps), nextPaymentID);
      nextPaymentID := nextPaymentID + |ps|;
      err := None;
    }

    // ------------------------------------------------------------- payments

    /** The scheduled and outstanding payments due before `nextWeek`, as
        distinct new entities. The query fixes no order, so `order` is the
        order the database returns them in: any arrangement of the rows the
        query selects. */
    method GetPaymentsDue(nextWeek: Model.Day, order: seq<Row>) returns (r: Result<seq<Entity.Payment>>)
      requires multiset(order) == multiset(Due(payments, nextWeek))
      ensures Call.GetPaymentsDue in refused ==> r == Err(StorageFailure)
      ensures Call.GetPaymentsDue !in refused ==> r.Ok? && Entity.RowsOf(r.value) == order
      ensures r.Ok? ==> forall p :: p in r.value ==> fresh(p)
      ensures r.Ok? ==> Entity.Distinct(r.value)
    {
      if Call.GetPaymentsDue in refused {
        return Err(StorageFailure);
      }
      FetchOrderFacts(payments, nextWeek, order);
      FetchedStatusesKnown(payments, nextWeek);
      assert forall k :: 0 <= k < |order| ==> KnownPaymentName(order[k]) by {
        forall k | 0 <= k < |order| ensures KnownPaymentName(order[k]) {
          assert order[k] in Due(payments, nextWeek);
        }
      }
      r := Entity.MakePayments(order);
      if r.Err? {
        assert false;
      }
    }

    /** Writes the entity's status to the payment row with its id. */
    method UpdatePaymentStatus(p: Entity.Payment) returns (err: Option<Error>)
      modifies this`payments
      ensures Call.UpdatePaymentStatus(p.id) in refused ==> err == Some(StorageFailure) && payments == old(payments)
      ensures Call.UpdatePaymentStatus(p.id) !in refused ==> err.None? && payments == WithStatus(old(payments), p.id, p.Status())
    {
      if Call.UpdatePaymentStatus(p.id) in refused {
        return Some(StorageFailure);
      }
      payments := WithStatus(payments, p.id, p.Status());
      err := None;
    }

    /** The loan's earliest payment that is scheduled or outstanding, or none. */
    method GetNextPayment(loanID: nat) returns (r: Result<Option<Entity.Payment>>)
      requires WeekOrdered(payments)
      ensures Call.GetNextPayment in refused ==> r == Err(StorageFailure)
      ensures Call.GetNextPayment !in refused && NextRow(payments, loanID).None? ==> r == Ok(None)
      ensures Call.GetNextPayment !in refused && NextRow(payments, loanID).Some? ==>
                r.Ok? && r.value.Some? && fresh(r.value.value) && r.value.value.ToModel() == NextRow(payments, loanID).value
      ensures r.Ok? && r.value.Some? ==>
                forall j :: 0 <= j < |payments| && payments[j].LoanID == loanID &&
                            (payments[j].Status == "scheduled" || payments[j].Status == "outstanding") ==>
                  r.value.value.week <= payments[j].Week
    {
      if Call.GetNextPayment in refused {
        return Err(StorageFailure);
      }
      var next := NextRow(payments, loanID);
      if next.None? {
        return Ok(None);
      }
      NextRowEarliestWeek(payments, loanID);
      var made := Entity.MakePayment(next.value);
      if made.Err? {
        assert false;
      }
      r := Ok(Some(made.value));
    }
  }
}
