// The business invariant of the payment table: within each loan, once a
// payment is scheduled or outstanding, no later payment of that loan is
// outstanding or pending. In particular a loan has at most one outstanding
// payment, its arrears come before it and its future instalments after it.

module Consistency {
  import opened Results
  import Model
  import opened Queries
  import opened Reconciliation
  import Billing

  predicate Active(status: string)
  {
    status == "scheduled" || status == "outstanding"
  }

  ghost predicate Consistent(rows: seq<Row>)
  {
    forall i, j :: 0 <= i < j < |rows| && rows[i].LoanID == rows[j].LoanID && Active(rows[i].Status) ==>
      rows[j].Status != "outstanding" && rows[j].Status != "pending"
  }

  /** A consistent table holds at most one outstanding payment per loan. */
  lemma AtMostOneOutstanding(rows: seq<Row>, i: nat, j: nat)
    requires Consistent(rows) && i < |rows| && j < |rows| && i != j
    requires rows[i].LoanID == rows[j].LoanID
    ensures !(rows[i].Status == "outstanding" && rows[j].Status == "outstanding")
  {
  }

  // ------------------------------------------------------ the daily job

  /** The daily job keeps the table consistent, also when it stops part-way
      through the fetched rows. */
  lemma ReconcileKeepsConsistent(rows: seq<Row>, today: Model.Day, bound: nat)
    requires WeekOrdered(rows) && Consistent(rows)
    ensures Consistent(ReconcileBelow(rows, today, bound))
  {
    var after := ReconcileBelow(rows, today, bound);
    forall i, j | 0 <= i < j < |after| && after[i].LoanID == after[j].LoanID && Active(after[i].Status)
      ensures after[j].Status != "outstanding" && after[j].Status != "pending"
    {
      assert Active(rows[i].Status);
      assert rows[j].Status != "outstanding" && rows[j].Status != "pending";
    }
  }

  // ---------------------------------------------------------- a payment

  /** Marking any rows paid keeps the table consistent. */
  lemma MarkPaidKeepsConsistent(rows: seq<Row>, ids: set<nat>)
    requires Consistent(rows)
    ensures Consistent(MarkPaid(rows, ids))
  {
    var after := MarkPaid(rows, ids);
    forall i, j | 0 <= i < j < |after| && after[i].LoanID == after[j].LoanID && Active(after[i].Status)
      ensures after[j].Status != "outstanding" && after[j].Status != "pending"
    {
      assert after[i] == rows[i];
    }
  }

  /** Promoting a loan's earliest scheduled-or-outstanding row, when it is
      scheduled, keeps the table consistent. */
  lemma PromoteNextKeepsConsistent(rows: seq<Row>, loanID: nat)
    requires Consistent(rows) && UniqueIDs(rows)
    requires NextIndex(rows, loanID) >= 0 && rows[NextIndex(rows, loanID)].Status == "scheduled"
    ensures Consistent(WithStatus(rows, rows[NextIndex(rows, loanID)].ID, "outstanding"))
  {
    var n := NextIndex(rows, loanID);
    var after := WithStatus(rows, rows[n].ID, "outstanding");
    forall k | 0 <= k < |rows| && k != n ensures after[k] == rows[k] {
    }
  }

  // ---------------------------------------------------------- a new loan

  /** Appending the schedule of a loan that has no rows yet keeps the table
      consistent and week-ordered. */
  lemma AppendScheduleKeepsConsistent(rows: seq<Row>, added: seq<Row>, loanID: nat)
    requires WeekOrdered(rows)
    requires forall r :: r in rows ==> r.LoanID != loanID
    requires forall k :: 0 <= k < |added| ==> added[k].LoanID == loanID
    requires forall k :: 1 <= k < |added| ==> added[k].Status == "scheduled"
    requires forall k, l :: 0 <= k < l < |added| ==> added[k].Week < added[l].Week && added[k].DueDate + 7 <= added[l].DueDate
    ensures WeekOrdered(rows + added)
    ensures Consistent(rows) ==> Consistent(rows + added)
  {
    var all := rows + added;
    forall i, j | 0 <= i < j < |all| && all[i].LoanID == all[j].LoanID
      ensures all[i].Week < all[j].Week && all[i].DueDate + 7 <= all[j].DueDate
      ensures Consistent(rows) && Active(all[i].Status) ==> all[j].Status != "outstanding" && all[j].Status != "pending"
    {
      if j >= |rows| {
        assert all[j] == added[j - |rows|];
        if i >= |rows| {
          assert all[i] == added[i - |rows|];
        }
      }
    }
  }

  // --------------------------------------------- what a payment request reads

  /** In a consistent table, a loan's pending and outstanding rows are its
      arrears followed by at most one outstanding row, which comes last. */
  lemma {:induction false} OutstandingOfShape(rows: seq<Row>, loanID: nat)
    requires Consistent(rows)
    ensures forall k :: 0 <= k < |OutstandingOf(rows, loanID)| - 1 ==> OutstandingOf(rows, loanID)[k].Status == "pending"
  {
    if rows != [] {
      var tail := rows[1..];
      assert Consistent(tail) by {
        forall i, j | 0 <= i < j < |tail| && tail[i].LoanID == tail[j].LoanID && Active(tail[i].Status)
          ensures tail[j].Status != "outstanding" && tail[j].Status != "pending"
        {
          assert tail[i] == rows[i + 1] && tail[j] == rows[j + 1];
        }
      }
      OutstandingOfShape(tail, loanID);
      if rows[0].LoanID == loanID && Active(rows[0].Status) {
        NothingOpenAfterActive(rows, loanID);
      }
    }
  }

  lemma {:induction false} NoOpenRows(rows: seq<Row>, loanID: nat)
    requires forall r :: r in rows && r.LoanID == loanID ==> !Unsettled(r)
    ensures OutstandingOf(rows, loanID) == []
  {
    if rows != [] {
      assert forall r :: r in rows[1..] ==> r in rows;
      NoOpenRows(rows[1..], loanID);
    }
  }

  /** Once a loan has a scheduled or outstanding row, none of its later rows is pending or outstanding. */
  lemma NothingOpenAfterActive(rows: seq<Row>, loanID: nat)
    requires Consistent(rows) && rows != [] && rows[0].LoanID == loanID && Active(rows[0].Status)
    ensures OutstandingOf(rows[1..], loanID) == []
  {
    var tail := rows[1..];
    var open := OutstandingOf(tail, loanID);
    forall r | r in tail && r.LoanID == loanID ensures !Unsettled(r) {
      var j :| 0 <= j < |tail| && tail[j] == r;
      assert rows[j + 1] == r;
    }
    NoOpenRows(tail, loanID);
  }

  /** Hence the rows a payment request reads are either all pending, or the
      pending ones followed by the one outstanding row. */
  lemma OutstandingOfSplit(rows: seq<Row>, loanID: nat)
    requires Consistent(rows)
    requires OutstandingOf(rows, loanID) != []
    ensures var open := OutstandingOf(rows, loanID);
            Billing.SplitsAtLast(open)
  {
    var open := OutstandingOf(rows, loanID);
    OutstandingOfShape(rows, loanID);
    forall k | 0 <= k < |open| ensures open[k].Status == "pending" || open[k].Status == "outstanding" {
      assert open[k] in open;
    }
    Billing.SplitPendingLast(open);
  }
}
