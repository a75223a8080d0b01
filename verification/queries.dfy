// What the repository queries select and update, stated over the stored rows.
// Rows are kept in insertion order, which for each loan is week order.

module Queries {
  import opened Results
  import Model

  type Row = Model.Payment

  /** A database call; the store can be set to refuse any of them, which
      stands for every way the database can fail (lost connection, lock
      timeout, violated constraint). */
  datatype Call =
    | GetCustomerByID
    | SaveCustomer
    | SaveLoan
    | SavePayments
    | GetOutstandingPayments
    | GetNextPayment
    | GetPaymentsDue
    | UpdateLoanStatus(loanID: nat)
    | UpdatePaymentStatus(paymentID: nat)

  function IDsOf(rows: seq<Row>): set<nat>
  {
    set r | r in rows :: r.ID
  }

  lemma IDsOfSnoc(rows: seq<Row>, r: Row)
    ensures IDsOf(rows + [r]) == IDsOf(rows) + {r.ID}
  {
    assert forall x :: x in rows + [r] <==> x in rows || x == r;
  }

  lemma IDsOfPrefixStep(rows: seq<Row>, i: nat)
    requires i < |rows|
    ensures IDsOf(rows[..i + 1]) == IDsOf(rows[..i]) + {rows[i].ID}
  {
    assert rows[..i + 1] == rows[..i] + [rows[i]];
    IDsOfSnoc(rows[..i], rows[i]);
  }

  predicate UniqueIDs(rows: seq<Row>)
  {
    forall i, j :: 0 <= i < j < |rows| ==> rows[i].ID != rows[j].ID
  }

  /** Each loan's rows appear in week order and fall due at least a week apart. */
  predicate WeekOrdered(rows: seq<Row>)
  {
    forall i, j :: 0 <= i < j < |rows| && rows[i].LoanID == rows[j].LoanID ==>
      rows[i].Week < rows[j].Week && rows[i].DueDate + 7 <= rows[j].DueDate
  }

  lemma UniqueIDsSameRow(rows: seq<Row>, i: nat, j: nat)
    requires UniqueIDs(rows) && i < |rows| && j < |rows| && rows[i].ID == rows[j].ID
    ensures i == j
  {
  }

  // ------------------------------------------------ payments due this week

  /** The condition of the daily query: scheduled or outstanding, and due
      before the given day. */
  predicate Fetched(r: Row, nextWeek: Model.Day)
  {
    (r.Status == "scheduled" || r.Status == "outstanding") && r.DueDate < nextWeek
  }

  function Due(rows: seq<Row>, nextWeek: Model.Day): (due: seq<Row>)
    ensures forall r :: r in due <==> r in rows && Fetched(r, nextWeek)
    ensures |due| <= |rows|
  {
    if rows == [] then []
    else (if Fetched(rows[0], nextWeek) then [rows[0]] else []) + Due(rows[1..], nextWeek)
  }

  /** The daily query has no ORDER BY: the database may return its rows in
      any order. Whatever the order, the same rows are fetched, and each is a
      stored row the query selects. */
  lemma FetchOrderFacts(rows: seq<Row>, nextWeek: Model.Day, order: seq<Row>)
    requires multiset(order) == multiset(Due(rows, nextWeek))
    ensures IDsOf(order) == IDsOf(Due(rows, nextWeek))
    ensures forall j :: 0 <= j < |order| ==> order[j] in rows && Fetched(order[j], nextWeek)
  {
    var due := Due(rows, nextWeek);
    assert forall r :: r in order <==> r in due by {
      forall r ensures r in order <==> r in due {
        assert r in order <==> r in multiset(order);
        assert r in due <==> r in multiset(due);
      }
    }
  }

  /** A non-empty table prefix yields its first row, when fetched, followed
      by what the rest of the prefix yields. */
  lemma DuePrefixCons(rows: seq<Row>, nextWeek: Model.Day, b: nat)
    requires 1 <= b <= |rows|
    ensures Due(rows[..b], nextWeek) == (if Fetched(rows[0], nextWeek) then [rows[0]] else []) + Due(rows[1..][..b - 1], nextWeek)
  {
    assert rows[..b][1..] == rows[1..][..b - 1] && rows[..b][0] == rows[0];
  }

  /** Every prefix of the fetched rows is what a prefix of the table yields. */
  lemma {:induction false} DueBound(rows: seq<Row>, nextWeek: Model.Day, m: nat) returns (b: nat)
    requires m <= |Due(rows, nextWeek)|
    ensures b <= |rows| && Due(rows, nextWeek)[..m] == Due(rows[..b], nextWeek)
  {
    if m == 0 {
      b := 0;
      assert rows[..0] == [];
    } else {
      var head := if Fetched(rows[0], nextWeek) then [rows[0]] else [];
      var due := Due(rows[1..], nextWeek);
      assert Due(rows, nextWeek) == head + due;
      var b' := DueBound(rows[1..], nextWeek, m - |head|);
      b := b' + 1;
      DuePrefixCons(rows, nextWeek, b);
      assert (head + due)[..m] == head + due[..m - |head|];
    }
  }

  /** With unique ids, the ids of the rows a table prefix yields pick out
      exactly the fetched rows below the bound. */
  lemma DueIDsBelow(rows: seq<Row>, nextWeek: Model.Day, b: nat, k: nat)
    requires UniqueIDs(rows) && b <= |rows| && k < |rows|
    ensures rows[k].ID in IDsOf(Due(rows[..b], nextWeek)) <==> k < b && Fetched(rows[k], nextWeek)
  {
    var due := Due(rows[..b], nextWeek);
    if k < b && Fetched(rows[k], nextWeek) {
      assert rows[k] == rows[..b][k];
      assert rows[k] in due;
    }
    if rows[k].ID in IDsOf(due) {
      var x :| x in due && x.ID == rows[k].ID;
      assert x in rows[..b];
      var i :| 0 <= i < b && rows[..b][i] == x;
      assert rows[i] == x;
      UniqueIDsSameRow(rows, i, k);
    }
  }

  // ------------------------------------------------- a loan's payment rows

  /** All rows of a loan, in stored (week) order. */
  function PaymentsOf(rows: seq<Row>, loanID: nat): (mine: seq<Row>)
    ensures forall r :: r in mine <==> r in rows && r.LoanID == loanID
  {
    if rows == [] then []
    else (if rows[0].LoanID == loanID then [rows[0]] else []) + PaymentsOf(rows[1..], loanID)
  }

  predicate Unsettled(r: Row)
  {
    r.Status == "pending" || r.Status == "outstanding"
  }

  /** The rows of a loan that are pending or outstanding, in week order. */
  function OutstandingOf(rows: seq<Row>, loanID: nat): (open: seq<Row>)
    ensures forall r :: r in open <==> r in rows && r.LoanID == loanID && Unsettled(r)
  {
    if rows == [] then []
    else (if rows[0].LoanID == loanID && Unsettled(rows[0]) then [rows[0]] else []) + OutstandingOf(rows[1..], loanID)
  }

  /** Position of a loan's earliest row that is scheduled or outstanding, or -1. */
  function NextIndex(rows: seq<Row>, loanID: nat): (i: int)
    ensures -1 <= i < |rows|
    ensures 0 <= i ==> rows[i].LoanID == loanID && (rows[i].Status == "scheduled" || rows[i].Status == "outstanding")
    ensures forall j :: 0 <= j < |rows| && (i < 0 || j < i) && rows[j].LoanID == loanID ==>
              rows[j].Status != "scheduled" && rows[j].Status != "outstanding"
  {
    if rows == [] then -1
    else if rows[0].LoanID == loanID && (rows[0].Status == "scheduled" || rows[0].Status == "outstanding") then 0
    else
      var k := NextIndex(rows[1..], loanID);
      if k < 0 then -1 else k + 1
  }

  function NextRow(rows: seq<Row>, loanID: nat): Option<Row>
  {
    var i := NextIndex(rows, loanID);
    if i < 0 then None else Some(rows[i])
  }

  /** Rows listed in strictly increasing week order. */
  predicate WeekSorted(rows: seq<Row>)
  {
    forall i, j :: 0 <= i < j < |rows| ==> rows[i].Week < rows[j].Week
  }

  /** Since a loan's rows are stored in week order, the pending and
      outstanding rows a payment reads come in week order. */
  lemma {:induction false} OutstandingOfWeekSorted(rows: seq<Row>, loanID: nat)
    requires WeekOrdered(rows)
    ensures WeekSorted(OutstandingOf(rows, loanID))
  {
    if rows != [] {
      WeekOrderedTail(rows);
      OutstandingOfWeekSorted(rows[1..], loanID);
      if rows[0].LoanID == loanID && Unsettled(rows[0]) {
        HeadBeforeRest(rows, loanID);
        WeekSortedCons(rows[0], OutstandingOf(rows[1..], loanID));
      }
    }
  }

  lemma WeekOrderedTail(rows: seq<Row>)
    requires WeekOrdered(rows) && rows != []
    ensures WeekOrdered(rows[1..])
  {
    var tail := rows[1..];
    forall i, j | 0 <= i < j < |tail| && tail[i].LoanID == tail[j].LoanID
      ensures tail[i].Week < tail[j].Week && tail[i].DueDate + 7 <= tail[j].DueDate
    {
      assert tail[i] == rows[i + 1] && tail[j] == rows[j + 1];
    }
  }

  lemma HeadBeforeRest(rows: seq<Row>, loanID: nat)
    requires WeekOrdered(rows) && rows != [] && rows[0].LoanID == loanID
    ensures forall j :: 0 <= j < |OutstandingOf(rows[1..], loanID)| ==> rows[0].Week < OutstandingOf(rows[1..], loanID)[j].Week
  {
    var tail := rows[1..];
    var rest := OutstandingOf(tail, loanID);
    forall j | 0 <= j < |rest| ensures rows[0].Week < rest[j].Week {
      assert rest[j] in rest;
      var k :| 0 <= k < |tail| && tail[k] == rest[j];
      assert rows[k + 1] == rest[j];
    }
  }

  lemma WeekSortedCons(x: Row, rest: seq<Row>)
    requires WeekSorted(rest) && forall j :: 0 <= j < |rest| ==> x.Week < rest[j].Week
    ensures WeekSorted([x] + rest)
  {
    var all := [x] + rest;
    forall i, j | 0 <= i < j < |all| ensures all[i].Week < all[j].Week {
      assert all[j] == rest[j - 1];
      if i > 0 {
        assert all[i] == rest[i - 1];
      }
    }
  }

  /** Since a loan's rows are stored in week order, its next row is the one
      with the lowest week among its scheduled and outstanding rows. */
  lemma NextRowEarliestWeek(rows: seq<Row>, loanID: nat)
    requires WeekOrdered(rows) && NextRow(rows, loanID).Some?
    ensures forall j :: 0 <= j < |rows| && rows[j].LoanID == loanID && (rows[j].Status == "scheduled" || rows[j].Status == "outstanding") ==>
              NextRow(rows, loanID).value.Week <= rows[j].Week
  {
  }

  /** Marking rows paid changes only statuses, so stored week order stays. */
  lemma MarkPaidKeepsWeekOrder(rows: seq<Row>, ids: set<nat>)
    requires WeekOrdered(rows)
    ensures WeekOrdered(MarkPaid(rows, ids))
  {
    var paid := MarkPaid(rows, ids);
    assert forall k :: 0 <= k < |rows| ==> paid[k].LoanID == rows[k].LoanID && paid[k].Week == rows[k].Week && paid[k].DueDate == rows[k].DueDate;
  }

  /** Promoting a loan's next row to outstanding leaves it the loan's next row. */
  lemma PromoteKeepsNext(rows: seq<Row>, loanID: nat)
    requires UniqueIDs(rows) && NextIndex(rows, loanID) >= 0
    ensures var n := NextIndex(rows, loanID);
            NextIndex(WithStatus(rows, rows[n].ID, "outstanding"), loanID) == n
  {
    var n := NextIndex(rows, loanID);
    var after := WithStatus(rows, rows[n].ID, "outstanding");
    assert after[n].LoanID == loanID && after[n].Status == "outstanding";
  }

  // ------------------------------------------------------------- updates

  /** UPDATE ... SET status WHERE id: every row with the id takes the status. */
  function WithStatus(rows: seq<Row>, id: nat, status: string): (updated: seq<Row>)
    ensures |updated| == |rows|
    ensures forall k :: 0 <= k < |rows| ==>
              updated[k] == if rows[k].ID == id then rows[k].(Status := status) else rows[k]
  {
    seq(|rows|, k requires 0 <= k < |rows| => if rows[k].ID == id then rows[k].(Status := status) else rows[k])
  }

  /** The rows whose id is in `ids` marked paid. */
  function MarkPaid(rows: seq<Row>, ids: set<nat>): (updated: seq<Row>)
    ensures |updated| == |rows|
    ensures forall k :: 0 <= k < |rows| ==>
              updated[k] == if rows[k].ID in ids then rows[k].(Status := "paid") else rows[k]
  {
    seq(|rows|, k requires 0 <= k < |rows| => if rows[k].ID in ids then rows[k].(Status := "paid") else rows[k])
  }

  /** Marking one more id paid, by a status write, extends the set of paid ids. */
  lemma MarkPaidStep(rows: seq<Row>, ids: set<nat>, id: nat)
    ensures WithStatus(MarkPaid(rows, ids), id, "paid") == MarkPaid(rows, ids + {id})
  {
    var written := WithStatus(MarkPaid(rows, ids), id, "paid");
    forall k | 0 <= k < |rows| ensures written[k] == MarkPaid(rows, ids + {id})[k] {
    }
  }

  /** Marking one more row of a list paid extends the paid prefix of the list. */
  lemma MarkPaidPrefixStep(before: seq<Row>, rows: seq<Row>, i: nat)
    requires i < |rows|
    ensures WithStatus(MarkPaid(before, IDsOf(rows[..i])), rows[i].ID, "paid") == MarkPaid(before, IDsOf(rows[..i + 1]))
  {
    MarkPaidStep(before, IDsOf(rows[..i]), rows[i].ID);
    IDsOfPrefixStep(rows, i);
  }

  /** Index of the first row, from `from` on, whose status write the store
      refuses, or the length. */
  function FirstRefused(rows: seq<Row>, refused: set<Call>, from: nat := 0): (k: nat)
    requires from <= |rows|
    ensures from <= k <= |rows|
    ensures k < |rows| ==> UpdatePaymentStatus(rows[k].ID) in refused
    decreases |rows| - from
  {
    if from == |rows| || UpdatePaymentStatus(rows[from].ID) in refused then from
    else FirstRefused(rows, refused, from + 1)
  }

  /** Every write before the first refused one is accepted. */
  lemma {:induction false} FirstRefusedIsFirst(rows: seq<Row>, refused: set<Call>, from: nat, j: nat)
    requires from <= j < |rows|
    ensures j < FirstRefused(rows, refused, from) ==> UpdatePaymentStatus(rows[j].ID) !in refused
    ensures UpdatePaymentStatus(rows[j].ID) in refused ==> FirstRefused(rows, refused, from) <= j
    decreases |rows| - from
  {
    if j > from && UpdatePaymentStatus(rows[from].ID) !in refused {
      FirstRefusedIsFirst(rows, refused, from + 1, j);
    }
  }

  // --------------------------------------------------------- other tables

  function FindLoan(loans: seq<Model.Loan>, id: nat): (r: Option<Model.Loan>)
    ensures r.Some? ==> r.value in loans && r.value.ID == id
    ensures r.None? ==> forall l :: l in loans ==> l.ID != id
  {
    if loans == [] then None
    else if loans[0].ID == id then Some(loans[0])
    else FindLoan(loans[1..], id)
  }

  function LoansOf(loans: seq<Model.Loan>, customerID: nat): (mine: seq<Model.Loan>)
    ensures forall l :: l in mine <==> l in loans && l.CustomerID == customerID
  {
    if loans == [] then []
    else (if loans[0].CustomerID == customerID then [loans[0]] else []) + LoansOf(loans[1..], customerID)
  }

  function WithLoanStatus(loans: seq<Model.Loan>, id: nat, status: string): (updated: seq<Model.Loan>)
    ensures |updated| == |loans|
    ensures forall k :: 0 <= k < |loans| ==>
              updated[k] == if loans[k].ID == id then loans[k].(Status := status) else loans[k]
  {
    seq(|loans|, k requires 0 <= k < |loans| => if loans[k].ID == id then loans[k].(Status := status) else loans[k])
  }

  function FindCustomer(customers: seq<Model.Customer>, id: nat): (r: Option<Model.Customer>)
    ensures r.Some? ==> r.value in customers && r.value.ID == id
    ensures r.None? ==> forall c :: c in customers ==> c.ID != id
  {
    if customers == [] then None
    else if customers[0].ID == id then Some(customers[0])
    else FindCustomer(customers[1..], id)
  }
}
