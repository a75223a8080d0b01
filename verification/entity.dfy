// The domain entities: payments, loans and customers, and their conversion
// from and to database records.

module Entity {
  import opened Results
  import opened Enum
  import Model
  import Billing
  import Delinquency

  type Row = Model.Payment

  // ================================================================ Payment

  class Payment {
    var id: nat
    var loanID: nat
    var loan: Loan?
    var week: int
    var amount: real
    var dueDate: Model.Day
    var status: KnownPaymentStatus

    constructor (id: nat, loanID: nat, week: int, amount: real, dueDate: Model.Day, status: KnownPaymentStatus)
      ensures this.id == id && this.loanID == loanID && this.week == week && this.amount == amount
      ensures this.dueDate == dueDate && this.status == status && this.loan == null
    {
      this.id := id;
      this.loanID := loanID;
      this.loan := null;
      this.week := week;
      this.amount := amount;
      this.dueDate := dueDate;
      this.status := status;
    }

    /** The status name; always one of the four known names. */
    function Status(): (name: string)
      reads this
    {
      PaymentStatusString(status)
    }

    /** The database record; its status name parses back to this payment's status. */
    function ToModel(): (m: Row)
      reads this
      ensures m.ID == id && m.LoanID == loanID && m.Week == week && m.Amount == amount && m.DueDate == dueDate
    {
      Model.Payment(id, loanID, week, amount, dueDate, Status())
    }

    /** Sets the status by name; an unknown name is rejected and changes nothing. */
    method SetStatus(name: string) returns (err: Option<Error>)
      modifies this`status
      ensures err.Some? <==> name !in PaymentStatusNames
      ensures err.Some? ==> err.value == InvalidPaymentStatus(name) && status == old(status)
      ensures err.None? ==> Status() == name
    {
      var parsed := ParsePaymentStatus(name);
      if parsed.1.Some? {
        return parsed.1;
      }
      status := parsed.0;
      return None;
    }

    method SetID(id: nat)
      modifies this`id
      ensures this.id == id
    {
      this.id := id;
    }

    method SetLoan(loan: Loan?)
      modifies this`loan
      ensures this.loan == loan
    {
      this.loan := loan;
    }

    /** A detached copy, as a Go range loop hands out. */
    method Copy() returns (p: Payment)
      ensures fresh(p) && p.ToModel() == ToModel()
    {
      p := new Payment(id, loanID, week, amount, dueDate, status);
    }
  }

  /** A payment's status name is always a known name, and parses back to the payment's status. */
  lemma StatusKnown(p: Payment)
    ensures p.Status() in PaymentStatusNames
    ensures ParsePaymentStatus(p.ToModel().Status) == (p.status as PaymentStatus, None)
  {
    ParsePaymentStatusString(p.status);
  }

  /** A payment of a new loan, before it is stored (id 0). */
  method CreatePayment(loanID: nat, week: int, amount: real, dueDate: Model.Day, status: string) returns (r: Result<Payment>)
    ensures r.Err? <==> status !in PaymentStatusNames
    ensures r.Err? ==> r.error == InvalidPaymentStatus(status)
    ensures r.Ok? ==> fresh(r.value) && r.value.loan == null
    ensures r.Ok? ==> r.value.ToModel() == Model.Payment(0, loanID, week, amount, dueDate, status)
  {
    var parsed := ParsePaymentStatus(status);
    if parsed.1.Some? {
      return Err(parsed.1.value);
    }
    var p := new Payment(0, loanID, week, amount, dueDate, parsed.0);
    return Ok(p);
  }

  /** Rebuilds a payment from its record; the record is reproduced exactly. */
  method MakePayment(m: Row) returns (r: Result<Payment>)
    ensures r.Err? <==> m.Status !in PaymentStatusNames
    ensures r.Err? ==> r.error == InvalidPaymentStatus(m.Status)
    ensures r.Ok? ==> fresh(r.value) && r.value.loan == null && r.value.ToModel() == m
  {
    var parsed := ParsePaymentStatus(m.Status);
    if parsed.1.Some? {
      return Err(parsed.1.value);
    }
    var p := new Payment(m.ID, m.LoanID, m.Week, m.Amount, m.DueDate, parsed.0);
    return Ok(p);
  }

  /** The records of a sequence of payments. */
  function RowsOf(ps: seq<Payment>): (rows: seq<Row>)
    reads ps
    ensures |rows| == |ps|
    ensures forall k :: 0 <= k < |ps| ==> rows[k] == ps[k].ToModel()
  {
    seq(|ps|, k requires 0 <= k < |ps| reads ps => ps[k].ToModel())
  }

  lemma RowsOfSnoc(ps: seq<Payment>, p: Payment)
    ensures RowsOf(ps + [p]) == RowsOf(ps) + [p.ToModel()]
  {
  }

  // =================================================================== Loan

  class Loan {
    var id: nat
    var customerID: nat
    var amount: real
    var totalAmount: real
    var status: KnownLoanStatus
    var termWeeks: int
    var rates: real
    var createdAt: Model.Day
    var updatedAt: Model.Day
    var payments: Option<seq<Payment>>

    constructor (id: nat, customerID: nat, amount: real, totalAmount: real, status: KnownLoanStatus,
                 termWeeks: int, rates: real, createdAt: Model.Day, updatedAt: Model.Day)
      ensures this.id == id && this.customerID == customerID && this.amount == amount
      ensures this.totalAmount == totalAmount && this.status == status && this.termWeeks == termWeeks
      ensures this.rates == rates && this.createdAt == createdAt && this.updatedAt == updatedAt
      ensures this.payments == None
    {
      this.id := id;
      this.customerID := customerID;
      this.amount := amount;
      this.totalAmount := totalAmount;
      this.status := status;
      this.termWeeks := termWeeks;
      this.rates := rates;
      this.createdAt := createdAt;
      this.updatedAt := updatedAt;
      this.payments := None;
    }

    function PaymentObjects(): set<Payment>
      reads this
    {
      if payments.None? then {} else set p | p in payments.value
    }

    /** The records of the loan's payments; None when the list is absent. */
    function Rows(): Option<seq<Row>>
      reads this, PaymentObjects()
    {
      if payments.None? then None else Some(RowsOf(payments.value))
    }

    function GetStatus(): (name: string)
      reads this
      ensures name in LoanStatusNames
      ensures ParseLoanStatus(name) == (status as LoanStatus, None)
    {
      ParseLoanStatusString(status);
      LoanStatusString(status)
    }

    /** The database record: always with a payment list, empty when the loan has none. */
    function ToModel(): (m: Model.Loan)
      reads this, PaymentObjects()
      ensures m.ID == id && m.CustomerID == customerID && m.Amount == amount && m.TotalAmount == totalAmount
      ensures m.TermWeeks == termWeeks && m.Rates == rates && m.CreatedAt == createdAt && m.UpdatedAt == updatedAt
      ensures ParseLoanStatus(m.Status) == (status as LoanStatus, None)
      ensures m.Payments == Some(if payments.None? then [] else RowsOf(payments.value))
    {
      Model.Loan(id, customerID, amount, totalAmount, GetStatus(), termWeeks, rates, createdAt, updatedAt,
                 Some(if payments.None? then [] else RowsOf(payments.value)))
    }

    /** The value a customer keeps of this loan: its record with the payment
        list as held, absent or not. */
    function Snapshot(): (c: Model.Loan)
      reads this, PaymentObjects()
      ensures c.Payments == Rows()
      ensures c.(Payments := ToModel().Payments) == ToModel()
    {
      Model.Loan(id, customerID, amount, totalAmount, GetStatus(), termWeeks, rates, createdAt, updatedAt, Rows())
    }

    /** Fails exactly when two of the loan's payments are outstanding. */
    function HasOneOutstandingPayment(): (err: Option<Error>)
      reads this, PaymentObjects()
      ensures err.None? <==> payments.None? || Billing.AtMostOne(RowsOf(payments.value), "outstanding")
      ensures err.Some? ==> err.value == MultipleOutstanding
    {
      if payments.None? then None
      else
        var rows := RowsOf(payments.value);
        Billing.CountAtMostOne(rows, "outstanding");
        if Billing.CountStatus(rows, "outstanding") > 1 then Some(MultipleOutstanding) else None
    }

    /** The amount due now; nil when the payment list is absent. */
    function GetTotalOutstandingAmount(): (total: Option<real>)
      reads this, PaymentObjects()
      ensures total.None? <==> payments.None?
      ensures total.Some? ==> total.value == Billing.OutstandingTotal(RowsOf(payments.value))
    {
      if payments.None? then None else Some(Billing.OutstandingTotal(RowsOf(payments.value)))
    }

    /** Accepts an amount within Epsilon of the amount due; rejects every
        amount when the payment list is absent. */
    function ValidateAmount(amount: real): (err: Option<Error>)
      reads this, PaymentObjects()
      ensures payments.None? ==> err == Some(EmptyPayments)
      ensures payments.Some? ==>
                (err.None? <==> Billing.AmountMatches(Billing.OutstandingTotal(RowsOf(payments.value)), amount))
      ensures payments.Some? && err.Some? ==> err.value == AmountMismatch
    {
      var total := GetTotalOutstandingAmount();
      if total.None? then Some(EmptyPayments)
      else if Billing.Abs(total.value - amount) > Billing.Epsilon then Some(AmountMismatch)
      else None
    }

    method SetStatus(name: string) returns (err: Option<Error>)
      modifies this`status
      ensures err.Some? <==> name !in LoanStatusNames
      ensures err.Some? ==> err.value == InvalidLoanStatus(name) && status == old(status)
      ensures err.None? ==> GetStatus() == name
    {
      var parsed := ParseLoanStatus(name);
      if parsed.1.Some? {
        return parsed.1;
      }
      status := parsed.0;
      return None;
    }

    method SetID(id: nat)
      modifies this`id
      ensures this.id == id
    {
      this.id := id;
    }

    method SetPayments(ps: seq<Payment>)
      modifies this`payments
      ensures payments == Some(ps)
    {
      payments := Some(ps);
    }
  }

  /** A new open loan for a customer: the total adds the interest at `rates`
      percent to the principal; id 0 until it is stored. */
  method CreateLoan(customerID: nat, amount: real, termWeeks: int, rates: real, now: Model.Day) returns (l: Loan)
    ensures fresh(l) && l.payments == None
    ensures l.id == 0 && l.customerID == customerID && l.amount == amount && l.termWeeks == termWeeks
    ensures l.rates == rates && l.createdAt == now && l.updatedAt == Model.ZeroDay
    ensures l.GetStatus() == "open"
    ensures l.totalAmount == Billing.TotalAmount(amount, rates)
  {
    var open := ParseLoanStatus("open");
    l := new Loan(0, customerID, amount, Billing.TotalAmount(amount, rates), open.0, termWeeks, rates, now, Model.ZeroDay);
  }

  /** The payment list a rebuilt loan holds: an absent or empty list stays absent. */
  function LoadedRows(m: Model.Loan): Option<seq<Row>>
  {
    if m.Payments.Some? && |m.Payments.value| > 0 then m.Payments else None
  }

  /** Index of the first record at or after `from` whose status is not a
      known name, or the length. */
  function FirstUnknownStatus(rows: seq<Row>, from: nat := 0): (k: nat)
    requires from <= |rows|
    ensures from <= k <= |rows|
    ensures k < |rows| ==> rows[k].Status !in PaymentStatusNames
    decreases |rows| - from
  {
    if from == |rows| || rows[from].Status !in PaymentStatusNames then from else FirstUnknownStatus(rows, from + 1)
  }

  /** Every record before the first unknown status has a known one; so the
      search runs to the end exactly when every status is known. */
  lemma {:induction false} FirstUnknownStatusIsFirst(rows: seq<Row>, from: nat, j: nat)
    requires from <= j < |rows|
    ensures j < FirstUnknownStatus(rows, from) ==> rows[j].Status in PaymentStatusNames
    ensures rows[j].Status !in PaymentStatusNames ==> FirstUnknownStatus(rows, from) <= j
    decreases |rows| - from
  {
    if from < j && rows[from].Status in PaymentStatusNames {
      FirstUnknownStatusIsFirst(rows, from + 1, j);
    }
  }

  predicate ScalarsValid(m: Model.Loan)
  {
    m.Amount > 0.0 && m.Rates >= 0.0 && m.TermWeeks > 0
  }

  /** The records a loan can be rebuilt from. */
  predicate Loadable(m: Model.Loan)
  {
    ScalarsValid(m) && m.Status in LoanStatusNames &&
    (LoadedRows(m).Some? ==>
      FirstUnknownStatus(m.Payments.value) == |m.Payments.value| &&
      Billing.AtMostOne(m.Payments.value, "outstanding"))
  }

  /** The error rebuilding an unloadable record yields: the first check it
      fails, in the order data, loan status, payment statuses, outstanding count. */
  function MakeLoanError(m: Model.Loan): Error
    requires !Loadable(m)
  {
    if !ScalarsValid(m) then InvalidLoanData
    else if m.Status !in LoanStatusNames then InvalidLoanStatus(m.Status)
    else if FirstUnknownStatus(m.Payments.value) < |m.Payments.value|
    then InvalidPaymentStatus(m.Payments.value[FirstUnknownStatus(m.Payments.value)].Status)
    else MultipleOutstanding
  }

  /** No payment object occurs twice. */
  predicate Distinct(ps: seq<Payment>)
  {
    forall i, j :: 0 <= i < j < |ps| ==> ps[i] != ps[j]
  }

  /** Rebuilds the payments of a record in order, failing on the first unknown status. */
  method MakePayments(records: seq<Row>) returns (r: Result<seq<Payment>>)
    ensures r.Err? ==> FirstUnknownStatus(records) < |records| &&
                       r.error == InvalidPaymentStatus(records[FirstUnknownStatus(records)].Status)
    ensures r.Ok? ==> FirstUnknownStatus(records) == |records|
    ensures r.Ok? ==> RowsOf(r.value) == records && Distinct(r.value) && forall p :: p in r.value ==> fresh(p)
  {
    var built: seq<Payment> := [];
    var i := 0;
    while i < |records|
      invariant 0 <= i <= |records|
      invariant RowsOf(built) == records[..i]
      invariant Distinct(built) && forall p :: p in built ==> fresh(p)
      invariant FirstUnknownStatus(records) >= i
    {
      var made := MakePayment(records[i]);
      if made.Err? {
        FirstUnknownStep(records, i);
        return Err(made.error);
      }
      FirstUnknownStep(records, i);
      assert made.value !in built;
      BuiltStep(built, made.value, records, i);
      built := built + [made.value];
      i := i + 1;
    }
    assert FirstUnknownStatus(records) == |records|;
    assert records[..i] == records;
    return Ok(built);
  }

  /** Appending a payment that is new to the list and holds the next record
      keeps the list distinct and its records a prefix of the input. */
  lemma BuiltStep(built: seq<Payment>, p: Payment, records: seq<Row>, i: nat)
    requires i < |records| && RowsOf(built) == records[..i] && p.ToModel() == records[i]
    requires Distinct(built) && p !in built
    ensures RowsOf(built + [p]) == records[..i + 1]
    ensures Distinct(built + [p])
  {
    RowsOfSnoc(built, p);
    assert records[..i + 1] == records[..i] + [records[i]];
  }

  lemma FirstUnknownStep(rows: seq<Row>, i: nat)
    requires i < |rows| && FirstUnknownStatus(rows) >= i
    ensures rows[i].Status in PaymentStatusNames <==> FirstUnknownStatus(rows) > i
  {
    FirstUnknownStatusIsFirst(rows, 0, i);
  }

  /** Rebuilds a loan from its record, checking it on the way: positive
      amount and term, non-negative rate, a known status, known payment
      statuses, and at most one outstanding payment. */
  method MakeLoan(m: Model.Loan) returns (r: Result<Loan>)
    ensures r.Ok? <==> Loadable(m)
    ensures r.Err? ==> r.error == MakeLoanError(m)
    ensures r.Ok? ==> fresh(r.value) && fresh(r.value.PaymentObjects())
    ensures r.Ok? ==> r.value.Snapshot() == LoadedCopy(m)
  {
    if m.Amount <= 0.0 || m.Rates < 0.0 || m.TermWeeks <= 0 {
      return Err(InvalidLoanData);
    }
    var parsed := ParseLoanStatus(m.Status);
    if parsed.1.Some? {
      return Err(parsed.1.value);
    }
    var loan := new Loan(m.ID, m.CustomerID, m.Amount, m.TotalAmount, parsed.0, m.TermWeeks, m.Rates, m.CreatedAt, m.UpdatedAt);
    if m.Payments.Some? && |m.Payments.value| > 0 {
      var made := MakePayments(m.Payments.value);
      if made.Err? {
        return Err(made.error);
      }
      loan.SetPayments(made.value);
      assert loan.Rows() == Some(m.Payments.value);
      var err := loan.HasOneOutstandingPayment();
      if err.Some? {
        return Err(err.value);
      }
      assert Billing.AtMostOne(m.Payments.value, "outstanding");
    }
    return Ok(loan);
  }

  // =============================================================== Customer

  /** A customer keeps copies of its loans, not references: a copy is the
      loan's record with its payment list as the loan holds it (None for an
      absent list). The copies share nothing the core later changes. */
  type LoanCopy = Model.Loan

  /** The payment lists of a customer's loan copies, in order. */
  function ListsOf(loans: seq<LoanCopy>): (lists: Delinquency.PaymentLists)
    ensures |lists| == |loans|
    ensures forall k :: 0 <= k < |loans| ==> lists[k] == loans[k].Payments
  {
    seq(|loans|, k requires 0 <= k < |loans| => loans[k].Payments)
  }

  /** The record of a loan copy, as Loan.ToModel writes it: an absent payment list becomes an empty one. */
  function CopyRecord(l: LoanCopy): (m: Model.Loan)
    ensures m.Payments.Some? && (l.Payments.Some? ==> m.Payments == l.Payments)
    ensures m.(Payments := l.Payments) == l
  {
    l.(Payments := Some(if l.Payments.None? then [] else l.Payments.value))
  }

  function CopyRecords(ls: seq<LoanCopy>): (ms: seq<Model.Loan>)
    ensures |ms| == |ls|
    ensures forall k :: 0 <= k < |ls| ==> ms[k] == CopyRecord(ls[k])
  {
    seq(|ls|, k requires 0 <= k < |ls| => CopyRecord(ls[k]))
  }

  class Customer {
    var id: nat
    var name: string
    var email: string
    var loans: Option<seq<LoanCopy>>

    constructor (id: nat, name: string, email: string, loans: Option<seq<LoanCopy>>)
      ensures this.id == id && this.name == name && this.email == email && this.loans == loans
    {
      this.id := id;
      this.name := name;
      this.email := email;
      this.loans := loans;
    }

    /** The database record; the loan list is present only when non-empty. */
    function ToModel(): (m: Model.Customer)
      reads this
      ensures m.ID == id && m.Name == name && m.Email == email
      ensures m.Loans.Some? <==> loans.Some? && |loans.value| > 0
      ensures m.Loans.Some? ==> m.Loans.value == CopyRecords(loans.value)
    {
      Model.Customer(id, name, email, if loans.Some? && |loans.value| > 0 then Some(CopyRecords(loans.value)) else None)
    }

    method SetID(id: nat)
      modifies this`id
      ensures this.id == id
    {
      this.id := id;
    }

    function GetID(): nat
      reads this
    {
      id
    }

    /** Delinquent when two or more payments, across all loans, are pending.
        A customer without a loan list, or a loan without a payment list
        reached before the answer is known, dereferences a nil pointer. */
    function IsDelinquent(): (r: Result<bool>)
      reads this
      ensures loans.None? ==> r == Err(NilDereference)
      ensures loans.Some? && Delinquency.AllPresent(ListsOf(loans.value)) ==>
                r == Ok(Delinquency.PendingTotal(ListsOf(loans.value)) >= 2)
      ensures r == Ok(true) ==> loans.Some? && Delinquency.PendingTotal(ListsOf(loans.value)) >= 2
      ensures r.Err? ==> r == Err(NilDereference)
      ensures r == Ok(false) ==> loans.Some? && Delinquency.AllPresent(ListsOf(loans.value))
      ensures loans.Some? ==>
                var lists := ListsOf(loans.value);
                var n := Delinquency.FirstAbsent(lists);
                r == if Delinquency.PendingTotal(lists[..n]) >= 2 then Ok(true)
                     else if n < |lists| then Err(NilDereference)
                     else Ok(false)
    {
      if loans.None? then Err(NilDereference)
      else
        var lists := ListsOf(loans.value);
        var answer := Delinquency.ScanLoans(lists, 0);
        Delinquency.ScanLoansExact(lists, 0);
        if answer == Ok(true) then Delinquency.ScanTrueMeansTwoPending(lists, 0); answer
        else if Delinquency.AllPresent(lists) then Delinquency.ScanLoansCounts(lists, 0); answer
        else answer
    }
  }

  /** A customer that does not exist yet: no loans. */
  method CreateCustomer(id: nat, name: string, email: string) returns (c: Customer)
    ensures fresh(c) && c.id == id && c.name == name && c.email == email && c.loans == None
  {
    c := new Customer(id, name, email, None);
  }

  /** The copy a customer keeps of a rebuilt loan record: an absent or empty payment list stays absent. */
  function LoadedCopy(m: Model.Loan): LoanCopy
  {
    m.(Payments := LoadedRows(m))
  }

  function LoadedCopies(ms: seq<Model.Loan>): (ls: seq<LoanCopy>)
    ensures |ls| == |ms|
    ensures forall k :: 0 <= k < |ms| ==> ls[k] == LoadedCopy(ms[k])
  {
    seq(|ms|, k requires 0 <= k < |ms| => LoadedCopy(ms[k]))
  }

  /** Index of the first loan record at or after `from` that cannot be
      rebuilt, or the length. */
  function FirstUnloadable(ms: seq<Model.Loan>, from: nat := 0): (k: nat)
    requires from <= |ms|
    ensures from <= k <= |ms|
    ensures k < |ms| ==> !Loadable(ms[k])
    decreases |ms| - from
  {
    if from == |ms| || !Loadable(ms[from]) then from else FirstUnloadable(ms, from + 1)
  }

  lemma {:induction false} FirstUnloadableIsFirst(ms: seq<Model.Loan>, from: nat, j: nat)
    requires from <= j < |ms|
    ensures j < FirstUnloadable(ms, from) ==> Loadable(ms[j])
    ensures !Loadable(ms[j]) ==> FirstUnloadable(ms, from) <= j
    decreases |ms| - from
  {
    if from < j && Loadable(ms[from]) {
      FirstUnloadableIsFirst(ms, from + 1, j);
    }
  }

  /** The record a customer can be rebuilt from: every loan of it can. */
  predicate CustomerLoadable(m: Model.Customer)
  {
    m.Loans.None? || FirstUnloadable(m.Loans.value) == |m.Loans.value|
  }

  /** The loan copies a rebuilt customer holds: absent for an absent or empty loan list. */
  function LoadedLoans(m: Model.Customer): Option<seq<LoanCopy>>
  {
    if m.Loans.None? || |m.Loans.value| == 0 then None else Some(LoadedCopies(m.Loans.value))
  }

  /** Rebuilds a customer and every loan of its record, failing on the first
      loan that cannot be rebuilt; an absent or empty loan list stays absent. */
  method MakeCustomer(m: Model.Customer) returns (r: Result<Customer>)
    ensures r.Ok? <==> CustomerLoadable(m)
    ensures r.Err? ==> r.error == MakeLoanError(m.Loans.value[FirstUnloadable(m.Loans.value)])
    ensures r.Ok? ==> fresh(r.value)
    ensures r.Ok? ==> r.value.id == m.ID && r.value.name == m.Name && r.value.email == m.Email
    ensures r.Ok? ==> r.value.loans == LoadedLoans(m)
  {
    if m.Loans.None? || |m.Loans.value| == 0 {
      var c := new Customer(m.ID, m.Name, m.Email, None);
      return Ok(c);
    }
    var records := m.Loans.value;
    var copies: seq<LoanCopy> := [];
    var i := 0;
    while i < |records|
      invariant 0 <= i <= |records|
      invariant |copies| == i
      invariant forall k :: 0 <= k < i ==> copies[k] == LoadedCopy(records[k])
      invariant FirstUnloadable(records) >= i
    {
      var made := MakeLoan(records[i]);
      FirstUnloadableIsFirst(records, 0, i);
      if made.Err? {
        return Err(made.error);
      }
      var copy := made.value.Snapshot();
      copies := copies + [copy];
      i := i + 1;
    }
    assert copies == LoadedCopies(records);
    var c := new Customer(m.ID, m.Name, m.Email, Some(copies));
    return Ok(c);
  }
}
