// The billing calculator over payment rows: the quote a borrower must pay,
// how far a payment reaches, and the instalment schedule of a new loan.

module Billing {
  import opened Results
  import Model
  import Validators

  type Row = Model.Payment

  // ------------------------------------------------------------ counting

  /** Number of rows whose status is `status`. */
  function CountStatus(rows: seq<Row>, status: string): (n: nat)
    ensures n <= |rows|
    ensures n == 0 <==> forall i :: 0 <= i < |rows| ==> rows[i].Status != status
  {
    if rows == [] then 0
    else (if rows[0].Status == status then 1 else 0) + CountStatus(rows[1..], status)
  }

  /** No two distinct rows both carry `status`. */
  predicate AtMostOne(rows: seq<Row>, status: string)
  {
    forall i, j :: 0 <= i < j < |rows| && rows[i].Status == status ==> rows[j].Status != status
  }

  /** The counting test of HasOneOutstandingPayment means: no two rows share the status. */
  lemma {:induction false} CountAtMostOne(rows: seq<Row>, status: string)
    ensures CountStatus(rows, status) <= 1 <==> AtMostOne(rows, status)
  {
    if rows != [] {
      var tail := rows[1..];
      CountAtMostOne(tail, status);
      if rows[0].Status == status {
        if CountStatus(tail, status) == 0 {
          forall i, j | 0 <= i < j < |rows| && rows[i].Status == status
            ensures rows[j].Status != status
          {
            assert rows[j] == tail[j - 1];
            if i > 0 { assert rows[i] == tail[i - 1]; }
          }
        } else {
          var j :| 0 <= j < |tail| && tail[j].Status == status;
          assert rows[j + 1] == tail[j];
        }
      } else {
        if AtMostOne(tail, status) {
          forall i, j | 0 <= i < j < |rows| && rows[i].Status == status
            ensures rows[j].Status != status
          {
            assert i > 0;
            assert rows[i] == tail[i - 1] && rows[j] == tail[j - 1];
          }
        } else {
          var i, j :| 0 <= i < j < |tail| && tail[i].Status == status && tail[j].Status == status;
          assert rows[i + 1] == tail[i] && rows[j + 1] == tail[j];
        }
      }
    }
  }

  /** The rows whose status is "pending", in their original order. */
  function PendingRows(rows: seq<Row>): (pending: seq<Row>)
    ensures |pending| == CountStatus(rows, "pending")
    ensures forall i :: 0 <= i < |pending| ==> pending[i].Status == "pending" && pending[i] in rows
  {
    if rows == [] then []
    else (if rows[0].Status == "pending" then [rows[0]] else []) + PendingRows(rows[1..])
  }

  lemma {:induction false} PendingRowsAppend(a: seq<Row>, b: seq<Row>)
    ensures PendingRows(a + b) == PendingRows(a) + PendingRows(b)
  {
    if a != [] {
      var head := if a[0].Status == "pending" then [a[0]] else [];
      assert (a + b)[0] == a[0] && (a + b)[1..] == a[1..] + b;
      assert PendingRows(a + b) == head + PendingRows(a[1..] + b);
      PendingRowsAppend(a[1..], b);
      assert PendingRows(a) == head + PendingRows(a[1..]);
    } else {
      assert a + b == b;
    }
  }

  /** The last row carrying `status`, if any. A loop that keeps a pointer to
      "the" outstanding payment ends up pointing at the last one. */
  function LastWithStatus(rows: seq<Row>, status: string): (r: Option<Row>)
    ensures r.Some? ==> r.value in rows && r.value.Status == status
    ensures r.None? <==> CountStatus(rows, status) == 0
  {
    if rows == [] then None
    else if rows[|rows| - 1].Status == status then Some(rows[|rows| - 1])
    else
      var front := rows[..|rows| - 1];
      assert forall i :: 0 <= i < |front| ==> front[i] == rows[i];
      LastWithStatus(front, status)
  }

  lemma LastWithStatusSnoc(rows: seq<Row>, r: Row, status: string)
    ensures LastWithStatus(rows + [r], status) == if r.Status == status then Some(r) else LastWithStatus(rows, status)
  {
    assert (rows + [r])[..|rows|] == rows;
  }

  lemma PendingRowsSnoc(rows: seq<Row>, r: Row)
    ensures PendingRows(rows + [r]) == if r.Status == "pending" then PendingRows(rows) + [r] else PendingRows(rows)
  {
    PendingRowsAppend(rows, [r]);
    assert [r][1..] == [];
  }

  function SumAmounts(rows: seq<Row>): real
  {
    if rows == [] then 0.0 else rows[0].Amount + SumAmounts(rows[1..])
  }

  lemma {:induction false} SumAmountsAppend(a: seq<Row>, b: seq<Row>)
    ensures SumAmounts(a + b) == SumAmounts(a) + SumAmounts(b)
  {
    if a == [] {
      assert a + b == b;
    } else {
      assert (a + b)[1..] == a[1..] + b;
      SumAmountsAppend(a[1..], b);
    }
  }

  lemma {:induction false} SumAmountsNonNegative(rows: seq<Row>)
    requires forall i :: 0 <= i < |rows| ==> rows[i].Amount >= 0.0
    ensures SumAmounts(rows) >= 0.0
  {
    if rows != [] {
      SumAmountsNonNegative(rows[1..]);
    }
  }

  // --------------------------------------------------------------- quote

  /** The amount a borrower must pay now, computed from a loan's pending and
      outstanding payments: nothing without an outstanding payment; the
      outstanding instalment when nothing is pending; only the pending
      instalment when exactly one is pending; and every pending instalment
      plus the outstanding one when two or more are pending. */
  function OutstandingTotal(rows: seq<Row>): (total: real)
    ensures CountStatus(rows, "outstanding") == 0 ==> total == 0.0
  {
    var pending := PendingRows(rows);
    var current := LastWithStatus(rows, "outstanding");
    if current.None? then 0.0
    else if |pending| == 0 then current.value.Amount
    else if |pending| == 1 then pending[0].Amount
    else SumAmounts(pending) + current.value.Amount
  }

  /** The payment whose due date and week a quote reports, chosen by the same
      cases as the amount; None when no payment is outstanding. */
  function QuotedRow(rows: seq<Row>): (r: Option<Row>)
    ensures r.None? <==> CountStatus(rows, "outstanding") == 0
    ensures r.Some? ==> r.value in rows && (r.value.Status == "pending" <==> CountStatus(rows, "pending") == 1)
  {
    var pending := PendingRows(rows);
    var current := LastWithStatus(rows, "outstanding");
    if current.None? then None
    else if |pending| == 1 then Some(pending[0])
    else current
  }

  /** The quote of a loan whose pending payments all precede its one outstanding
      payment is the whole arrears plus the current instalment, except that
      exactly one pending payment is quoted alone. */
  lemma {:induction false} QuoteOfArrears(pending: seq<Row>, current: Row)
    requires forall i :: 0 <= i < |pending| ==> pending[i].Status == "pending"
    requires current.Status == "outstanding"
    ensures |pending| != 1 ==> OutstandingTotal(pending + [current]) == SumAmounts(pending) + current.Amount
    ensures |pending| == 1 ==> OutstandingTotal(pending + [current]) == pending[0].Amount
    ensures QuotedRow(pending + [current]) == Some(if |pending| == 1 then pending[0] else current)
  {
    var rows := pending + [current];
    assert rows[|rows| - 1] == current;
    assert LastWithStatus(rows, "outstanding") == Some(current);
    PendingRowsAppend(pending, [current]);
    assert [current][1..] == [];
    assert PendingRows([current]) == [];
    PendingRowsAll(pending);
    assert PendingRows(rows) == pending;
  }

  lemma {:induction false} PendingRowsAll(rows: seq<Row>)
    requires forall i :: 0 <= i < |rows| ==> rows[i].Status == "pending"
    ensures PendingRows(rows) == rows
  {
    if rows != [] {
      PendingRowsAll(rows[1..]);
    }
  }

  /** Pending rows followed by at most one outstanding row, which is last. */
  predicate SplitsAtLast(rows: seq<Row>)
  {
    rows != [] &&
    (rows[|rows| - 1].Status == "outstanding" ==> rows == PendingRows(rows) + [rows[|rows| - 1]]) &&
    (rows[|rows| - 1].Status != "outstanding" ==> rows == PendingRows(rows) && CountStatus(rows, "outstanding") == 0)
  }

  lemma SplitPendingLast(rows: seq<Row>)
    requires rows != []
    requires forall k :: 0 <= k < |rows| ==> rows[k].Status == "pending" || rows[k].Status == "outstanding"
    requires forall k :: 0 <= k < |rows| - 1 ==> rows[k].Status == "pending"
    ensures SplitsAtLast(rows)
  {
    var last := rows[|rows| - 1];
    var front := rows[..|rows| - 1];
    assert rows == front + [last];
    PendingRowsAll(front);
    PendingRowsAppend(front, [last]);
    assert [last][1..] == [];
    if last.Status != "outstanding" {
      PendingRowsAll(rows);
    }
  }

  // ---------------------------------------------------------- validation

  const Epsilon: real := 0.00001

  function Abs(x: real): real { if x < 0.0 then -x else x }

  /** A paid amount is accepted when it lies within Epsilon of the quote. */
  predicate AmountMatches(total: real, amount: real)
  {
    Abs(total - amount) <= Epsilon
  }

  // ----------------------------------------------------------- settlement

  /** How many leading rows a payment of `amount` settles, taking the rows in
      order and stopping at the first one the remaining amount cannot cover. */
  function PaidPrefix(rows: seq<Row>, amount: real): (k: nat)
    ensures k <= |rows|
  {
    if rows == [] || amount < rows[0].Amount then 0
    else 1 + PaidPrefix(rows[1..], amount - rows[0].Amount)
  }

  /** How far a payment reaches from row i on, one row at a time. */
  lemma PaidPrefixAt(rows: seq<Row>, i: nat, amount: real)
    requires i < |rows|
    ensures PaidPrefix(rows[i..], amount)
              == if amount < rows[i].Amount then 0 else 1 + PaidPrefix(rows[i + 1..], amount - rows[i].Amount)
  {
    assert rows[i..][1..] == rows[i + 1..];
  }

  /** Every settled row was affordable when it was reached, and the first row
      left unsettled was not. */
  lemma {:induction false} PaidPrefixStopsAtFirstShortfall(rows: seq<Row>, amount: real)
    ensures forall j | 1 <= j <= PaidPrefix(rows, amount) :: SumAmounts(rows[..j]) <= amount
    ensures PaidPrefix(rows, amount) < |rows| ==> SumAmounts(rows[..PaidPrefix(rows, amount) + 1]) > amount
  {
    var k := PaidPrefix(rows, amount);
    if rows != [] {
      var rest := amount - rows[0].Amount;
      PaidPrefixStopsAtFirstShortfall(rows[1..], rest);
      forall j | 1 <= j <= |rows|
        ensures SumAmounts(rows[..j]) == rows[0].Amount + SumAmounts(rows[1..][..j - 1])
      {
        assert rows[..j][1..] == rows[1..][..j - 1];
      }
      if amount >= rows[0].Amount {
        forall j | 1 <= j <= k ensures SumAmounts(rows[..j]) <= amount {
          if j > 1 {
            assert SumAmounts(rows[1..][..j - 1]) <= rest;
          } else {
            assert rows[1..][..0] == [];
          }
        }
      } else {
        assert rows[1..][..0] == [];
      }
    }
  }

  /** A payment that covers a run of non-negative instalments exactly settles
      all of them and carries the remainder on. */
  lemma {:induction false} PaidPrefixCovers(a: seq<Row>, b: seq<Row>, rest: real)
    requires forall i :: 0 <= i < |a| ==> a[i].Amount >= 0.0
    requires rest >= 0.0
    ensures PaidPrefix(a + b, SumAmounts(a) + rest) == |a| + PaidPrefix(b, rest)
  {
    if a == [] {
      assert a + b == b;
    } else {
      assert (a + b)[1..] == a[1..] + b;
      SumAmountsNonNegative(a[1..]);
      assert (a + b)[0] == a[0];
      PaidPrefixCovers(a[1..], b, rest);
      assert SumAmounts(a) + rest - a[0].Amount == SumAmounts(a[1..]) + rest;
    }
  }

  /** Paying exactly the quote settles every quoted instalment: all the
      arrears and the current instalment, or, when exactly one instalment is
      pending, that one alone. */
  lemma {:induction false} PayingQuoteSettlesQuoted(pending: seq<Row>, current: Row)
    requires forall i :: 0 <= i < |pending| ==> pending[i].Status == "pending" && pending[i].Amount > 0.0
    requires current.Status == "outstanding" && current.Amount > 0.0
    ensures PaidPrefix(pending + [current], OutstandingTotal(pending + [current]))
              == if |pending| == 1 then 1 else |pending| + 1
  {
    QuoteOfArrears(pending, current);
    var rows := pending + [current];
    if |pending| == 1 {
      assert rows[1..] == [current];
      assert rows[0] == pending[0];
    } else {
      SumAmountsAppend(pending, [current]);
      assert [current][1..] == [];
      PaidPrefixCovers(rows, [], 0.0);
      assert rows + [] == rows;
    }
  }

  /** An amount short of the quote by no more than Epsilon is accepted, yet
      when two or more payments are pending it leaves the current instalment
      unpaid. */
  lemma {:induction false} AcceptedShortfallLeavesCurrentUnpaid(pending: seq<Row>, current: Row, shortfall: real)
    requires |pending| >= 2
    requires forall i :: 0 <= i < |pending| ==> pending[i].Status == "pending" && pending[i].Amount > 0.0
    requires current.Status == "outstanding"
    requires 0.0 < shortfall <= Epsilon && shortfall <= current.Amount
    ensures AmountMatches(OutstandingTotal(pending + [current]), OutstandingTotal(pending + [current]) - shortfall)
    ensures PaidPrefix(pending + [current], OutstandingTotal(pending + [current]) - shortfall) == |pending|
  {
    QuoteOfArrears(pending, current);
    var rest := current.Amount - shortfall;
    PaidPrefixCovers(pending, [current], rest);
    assert SumAmounts(pending) + current.Amount - shortfall == SumAmounts(pending) + rest;
  }

  // ------------------------------------------------------------- schedule

  /** Principal plus simple interest at `rates` percent. */
  function TotalAmount(amount: real, rates: real): real
  {
    amount + amount * rates / 100.0
  }

  /** A valid interest percentage keeps the total between the principal and twice the principal. */
  lemma TotalAmountBounds(amount: real, rates: real)
    requires amount >= 0.0 && Validators.ValidPercentage(rates)
    ensures amount <= TotalAmount(amount, rates) <= 2.0 * amount
  {
    assert amount * rates <= amount * 100.0;
    assert amount * rates >= 0.0;
  }

  /** The rows of a new loan's schedule before they are stored: one per week
      from 1 to `weeks`, due seven days apart from `start`, the first one
      outstanding and the rest scheduled, each of the same instalment. */
  function Schedule(loanID: nat, instalment: real, weeks: nat, start: Model.Day): (rows: seq<Row>)
    ensures |rows| == weeks
    ensures forall k :: 0 <= k < weeks ==> rows[k].Week == k + 1 && rows[k].DueDate == start + 7 * (k + 1)
  {
    seq(weeks, k requires 0 <= k < weeks =>
      Model.Payment(0, loanID, k + 1, instalment, start + 7 * (k + 1), if k == 0 then "outstanding" else "scheduled"))
  }

  /** A schedule one week longer ends with that week's row. */
  lemma ScheduleSnoc(loanID: nat, instalment: real, weeks: nat, start: Model.Day)
    ensures Schedule(loanID, instalment, weeks + 1, start)
              == Schedule(loanID, instalment, weeks, start)
                 + [Model.Payment(0, loanID, weeks + 1, instalment, start + 7 * (weeks + 1),
                                  if weeks == 0 then "outstanding" else "scheduled")]
  {
  }

  lemma {:induction false} SumOfEqualAmounts(rows: seq<Row>, instalment: real)
    requires forall i :: 0 <= i < |rows| ==> rows[i].Amount == instalment
    ensures SumAmounts(rows) == (|rows| as real) * instalment
  {
    if rows != [] {
      SumOfEqualAmounts(rows[1..], instalment);
    }
  }

  /** The instalments of a schedule add up to the loan's total amount. */
  lemma ScheduleSumsToTotal(loanID: nat, total: real, weeks: nat, start: Model.Day)
    requires weeks > 0
    ensures SumAmounts(Schedule(loanID, total / (weeks as real), weeks, start)) == total
  {
    var rows := Schedule(loanID, total / (weeks as real), weeks, start);
    SumOfEqualAmounts(rows, total / (weeks as real));
  }
}
