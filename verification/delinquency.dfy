// Delinquency: a customer is delinquent once two or more of their payments,
// counted across all their loans, are pending.

module Delinquency {
  import opened Results
  import Model
  import Billing

  type Row = Model.Payment

  /** A customer's loans, each with its payment list; None stands for a loan
      whose payment list is absent (a nil pointer in the source). */
  type PaymentLists = seq<Option<seq<Row>>>

  /** The scan the customer entity performs: loans in order, payments in
      order, one running count of pending payments shared by all loans,
      answering true as soon as it reaches two. Reaching an absent payment
      list dereferences a nil pointer. */
  function ScanLoans(lists: PaymentLists, count: nat): (r: Result<bool>)
    ensures r.Err? ==> r == Err(NilDereference)
    ensures r == Ok(false) ==> AllPresent(lists)
    decreases |lists|, 1, 0
  {
    if lists == [] then Ok(false)
    else if lists[0].None? then Err(NilDereference)
    else ScanPayments(lists[0].value, lists[1..], count)
  }

  function ScanPayments(payments: seq<Row>, rest: PaymentLists, count: nat): (r: Result<bool>)
    ensures r.Err? ==> r == Err(NilDereference)
    ensures r == Ok(false) ==> AllPresent(rest)
    decreases |rest| + 1, 0, |payments|
  {
    if payments == [] then ScanLoans(rest, count)
    else
      var seen := if payments[0].Status == "pending" then count + 1 else count;
      if seen >= 2 then Ok(true) else ScanPayments(payments[1..], rest, seen)
  }

  predicate AllPresent(lists: PaymentLists)
  {
    forall k :: 0 <= k < |lists| ==> lists[k].Some?
  }

  /** Pending payments over every present payment list. */
  function PendingTotal(lists: PaymentLists): nat
  {
    if lists == [] then 0
    else (if lists[0].Some? then Billing.CountStatus(lists[0].value, "pending") else 0) + PendingTotal(lists[1..])
  }

  /** With every list present, the scan answers exactly whether the pending
      payments seen so far and still to come number two or more. */
  lemma {:induction false} ScanLoansCounts(lists: PaymentLists, count: nat)
    requires AllPresent(lists) && count < 2
    ensures ScanLoans(lists, count) == Ok(count + PendingTotal(lists) >= 2)
    decreases |lists|, 1, 0
  {
    if lists != [] {
      assert AllPresent(lists[1..]);
      ScanPaymentsCounts(lists[0].value, lists[1..], count);
    }
  }

  lemma {:induction false} ScanPaymentsCounts(payments: seq<Row>, rest: PaymentLists, count: nat)
    requires AllPresent(rest) && count < 2
    ensures ScanPayments(payments, rest, count)
              == Ok(count + Billing.CountStatus(payments, "pending") + PendingTotal(rest) >= 2)
    decreases |rest| + 1, 0, |payments|
  {
    if payments == [] {
      ScanLoansCounts(rest, count);
    } else {
      var seen := if payments[0].Status == "pending" then count + 1 else count;
      if seen < 2 {
        ScanPaymentsCounts(payments[1..], rest, seen);
      }
    }
  }

  /** Index of the first loan whose payment list is absent, or the number of
      loans when every list is present. */
  function FirstAbsent(lists: PaymentLists): (n: nat)
    ensures n <= |lists|
    ensures forall k :: 0 <= k < n ==> lists[k].Some?
    ensures n < |lists| ==> lists[n].None?
  {
    if lists == [] || lists[0].None? then 0 else 1 + FirstAbsent(lists[1..])
  }

  /** What the scan answers: true once the pending payments before the first
      absent list reach two, otherwise the nil dereference at that list, and
      false when there is none. */
  function ScanAnswer(lists: PaymentLists, count: nat): Result<bool>
  {
    var n := FirstAbsent(lists);
    if count + PendingTotal(lists[..n]) >= 2 then Ok(true)
    else if n < |lists| then Err(NilDereference)
    else Ok(false)
  }

  /** The scan's exact outcome, absent lists included. */
  lemma {:induction false} ScanLoansExact(lists: PaymentLists, count: nat)
    requires count < 2
    ensures ScanLoans(lists, count) == ScanAnswer(lists, count)
    decreases |lists|, 1, 0
  {
    if lists != [] && lists[0].Some? {
      var n := FirstAbsent(lists[1..]);
      assert FirstAbsent(lists) == 1 + n;
      assert lists[..1 + n][1..] == lists[1..][..n];
      assert PendingTotal(lists[..1 + n]) == Billing.CountStatus(lists[0].value, "pending") + PendingTotal(lists[1..][..n]);
      ScanPaymentsExact(lists[0].value, lists[1..], count);
    } else {
      assert lists[..0] == [];
    }
  }

  lemma {:induction false} ScanPaymentsExact(payments: seq<Row>, rest: PaymentLists, count: nat)
    requires count < 2
    ensures var n := FirstAbsent(rest);
            ScanPayments(payments, rest, count) ==
              if count + Billing.CountStatus(payments, "pending") + PendingTotal(rest[..n]) >= 2 then Ok(true)
              else if n < |rest| then Err(NilDereference)
              else Ok(false)
    decreases |rest| + 1, 0, |payments|
  {
    if payments == [] {
      ScanLoansExact(rest, count);
    } else {
      var seen := if payments[0].Status == "pending" then count + 1 else count;
      if seen < 2 {
        ScanPaymentsExact(payments[1..], rest, seen);
      }
    }
  }

  /** Whether present or not, a true answer always rests on two pending payments. */
  lemma {:induction false} ScanTrueMeansTwoPending(lists: PaymentLists, count: nat)
    requires ScanLoans(lists, count) == Ok(true)
    ensures count + PendingTotal(lists) >= 2
    decreases |lists|, 1, 0
  {
    if lists != [] && lists[0].Some? {
      ScanPaymentsTrue(lists[0].value, lists[1..], count);
    }
  }

  lemma {:induction false} ScanPaymentsTrue(payments: seq<Row>, rest: PaymentLists, count: nat)
    requires ScanPayments(payments, rest, count) == Ok(true)
    ensures count + Billing.CountStatus(payments, "pending") + PendingTotal(rest) >= 2
    decreases |rest| + 1, 0, |payments|
  {
    if payments == [] {
      ScanTrueMeansTwoPending(rest, count);
    } else {
      var seen := if payments[0].Status == "pending" then count + 1 else count;
      if seen < 2 {
        ScanPaymentsTrue(payments[1..], rest, seen);
      }
    }
  }

  /** One payment of one loan turned pending. */
  function MarkPending(lists: PaymentLists, loan: nat, payment: nat): PaymentLists
    requires loan < |lists| && lists[loan].Some? && payment < |lists[loan].value|
  {
    lists[loan := Some(lists[loan].value[payment := lists[loan].value[payment].(Status := "pending")])]
  }

  lemma {:induction false} CountStatusMarked(rows: seq<Row>, k: nat)
    requires k < |rows|
    ensures Billing.CountStatus(rows[k := rows[k].(Status := "pending")], "pending") >= Billing.CountStatus(rows, "pending")
  {
    var marked := rows[k := rows[k].(Status := "pending")];
    if k > 0 {
      assert marked[1..] == rows[1..][k - 1 := rows[k].(Status := "pending")];
      CountStatusMarked(rows[1..], k - 1);
    } else {
      assert marked[1..] == rows[1..];
    }
  }

  /** A payment turning pending never lowers the pending total, so it can
      never make a delinquent customer non-delinquent. */
  lemma {:induction false} MarkPendingKeepsDelinquent(lists: PaymentLists, loan: nat, payment: nat)
    requires loan < |lists| && lists[loan].Some? && payment < |lists[loan].value|
    ensures PendingTotal(MarkPending(lists, loan, payment)) >= PendingTotal(lists)
    ensures AllPresent(lists) && ScanLoans(lists, 0) == Ok(true) ==> ScanLoans(MarkPending(lists, loan, payment), 0) == Ok(true)
  {
    var marked := MarkPending(lists, loan, payment);
    if loan > 0 {
      assert marked[1..] == MarkPending(lists[1..], loan - 1, payment);
      MarkPendingKeepsDelinquent(lists[1..], loan - 1, payment);
      assert marked[0] == lists[0];
    } else {
      assert marked[1..] == lists[1..];
      CountStatusMarked(lists[0].value, payment);
    }
    if AllPresent(lists) {
      assert AllPresent(marked);
      ScanLoansCounts(lists, 0);
      ScanLoansCounts(marked, 0);
    }
  }
}
