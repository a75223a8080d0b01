// Database records: the rows the repositories read and write.

module Model {
  import opened Results

  /** A calendar day, counted from an arbitrary epoch. The engine truncates
      every instant to midnight before comparing, so whole days suffice. */
  type Day = int

  /** Stands for Go's zero time.Time, which a response carries when it has no due date. */
  const ZeroDay: Day := 0

  datatype Payment = Payment(ID: nat, LoanID: nat, Week: int, Amount: real, DueDate: Day, Status: string)

  datatype Loan = Loan(
    ID: nat, CustomerID: nat, Amount: real, TotalAmount: real, Status: string,
    TermWeeks: int, Rates: real, CreatedAt: Day, UpdatedAt: Day,
    Payments: Option<seq<Payment>>)

  datatype Customer = Customer(ID: nat, Name: string, Email: string, Loans: Option<seq<Loan>>)
}
