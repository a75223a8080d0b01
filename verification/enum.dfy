// Status enumerations of payments and loans, with their string names.

module Enum {
  import opened Results

  /** Index of the first entry of `names` equal to `name`, or -1 when no entry
      matches: the search both status parsers perform over their name tables. */
  function IndexOf(names: seq<string>, name: string): (i: int)
    ensures -1 <= i < |names|
    ensures i == -1 <==> name !in names
    ensures 0 <= i ==> names[i] == name && forall j :: 0 <= j < i ==> names[j] != name
  {
    if names == [] then -1
    else if names[0] == name then 0
    else
      var k := IndexOf(names[1..], name);
      if k == -1 then -1 else k + 1
  }

  // ---------------------------------------------------------------- payments

  newtype PaymentStatus = int

  const Scheduled: PaymentStatus := 0
  const Outstanding: PaymentStatus := 1
  const Paid: PaymentStatus := 2
  const Pending: PaymentStatus := 3

  const PaymentStatusNames: seq<string> := ["scheduled", "outstanding", "paid", "pending"]

  /** The statuses that have a name; every status a payment entity holds is one. */
  type KnownPaymentStatus = s: PaymentStatus | 0 <= s < 4

  /** Name of a status, "unknown" past the end of the table. A negative value
      indexes the table out of range in the source, so it is excluded. */
  function PaymentStatusString(status: PaymentStatus): (name: string)
    requires 0 <= status
    ensures name == "unknown" <==> status >= 4
    ensures name != "unknown" ==> name in PaymentStatusNames
  {
    if (status as int) < |PaymentStatusNames| then PaymentStatusNames[status as int] else "unknown"
  }

  /** Parses a payment status name; an unknown name yields -1 and an error. */
  function ParsePaymentStatus(name: string): (r: (PaymentStatus, Option<Error>))
    ensures r.1.None? <==> name in PaymentStatusNames
    ensures r.1.None? ==> 0 <= r.0 < 4 && PaymentStatusString(r.0) == name
    ensures r.1.Some? ==> r.0 == -1 && r.1.value == InvalidPaymentStatus(name)
  {
    var i := IndexOf(PaymentStatusNames, name);
    if i >= 0 then (i as PaymentStatus, None) else (-1, Some(InvalidPaymentStatus(name)))
  }

  /** Every named status survives a round trip through its name. */
  lemma {:induction false} ParsePaymentStatusString(status: PaymentStatus)
    requires 0 <= status < 4
    ensures ParsePaymentStatus(PaymentStatusString(status)) == (status, None)
  {
    var name := PaymentStatusString(status);
    var i := IndexOf(PaymentStatusNames, name);
    assert PaymentStatusNames[status as int] == name;
  }

  /** Exactly the four lower-case names parse, to the codes 0..3. */
  lemma PaymentStatusCodes(name: string)
    ensures ParsePaymentStatus(name).1.None? <==>
              name == "scheduled" || name == "outstanding" || name == "paid" || name == "pending"
    ensures ParsePaymentStatus("scheduled").0 == Scheduled && ParsePaymentStatus("outstanding").0 == Outstanding
    ensures ParsePaymentStatus("paid").0 == Paid && ParsePaymentStatus("pending").0 == Pending
  {
    ParsePaymentStatusString(Scheduled);
    ParsePaymentStatusString(Outstanding);
    ParsePaymentStatusString(Paid);
    ParsePaymentStatusString(Pending);
  }

  // ------------------------------------------------------------------- loans

  newtype LoanStatus = int

  const Open: LoanStatus := 0
  const Closed: LoanStatus := 1

  /** The stored name of a closed loan is "close", not "closed". */
  const LoanStatusNames: seq<string> := ["open", "close"]

  type KnownLoanStatus = s: LoanStatus | 0 <= s < 2

  function LoanStatusString(status: LoanStatus): (name: string)
    requires 0 <= status
    ensures name == "unknown" <==> status >= 2
    ensures name != "unknown" ==> name in LoanStatusNames
  {
    if (status as int) < |LoanStatusNames| then LoanStatusNames[status as int] else "unknown"
  }

  function ParseLoanStatus(name: string): (r: (LoanStatus, Option<Error>))
    ensures r.1.None? <==> name in LoanStatusNames
    ensures r.1.None? ==> 0 <= r.0 < 2 && LoanStatusString(r.0) == name
    ensures r.1.Some? ==> r.0 == -1 && r.1.value == InvalidLoanStatus(name)
  {
    var i := IndexOf(LoanStatusNames, name);
    if i >= 0 then (i as LoanStatus, None) else (-1, Some(InvalidLoanStatus(name)))
  }

  lemma {:induction false} ParseLoanStatusString(status: LoanStatus)
    requires 0 <= status < 2
    ensures ParseLoanStatus(LoanStatusString(status)) == (status, None)
  {
    var name := LoanStatusString(status);
    var i := IndexOf(LoanStatusNames, name);
    assert LoanStatusNames[status as int] == name;
  }

  /** "open" and "close" are the only accepted names; "closed" is rejected. */
  lemma LoanStatusCodes(name: string)
    ensures ParseLoanStatus(name).1.None? <==> name == "open" || name == "close"
    ensures ParseLoanStatus("open").0 == Open && ParseLoanStatus("close").0 == Closed
    ensures ParseLoanStatus("closed") == (-1, Some(InvalidLoanStatus("closed")))
  {
    ParseLoanStatusString(Open);
    ParseLoanStatusString(Closed);
  }
}
