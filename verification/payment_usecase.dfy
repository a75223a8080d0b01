// The daily job: every scheduled or outstanding payment due before next
// week is re-examined and written back, turning pending once overdue and
// outstanding once due within the week.

module PaymentUsecase {
  import opened Results
  import Model
  import opened Queries
  import opened Reconciliation
  import Consistency
  import Entity
  import opened Repository

  /** Runs the job for the day `currentDay`. Writes happen one by one and the
      first refused write ends the run, leaving the earlier ones in place. The
      fetch fixes no order: `order` is the order the database returns the
      query's rows in. The table stays consistent unless the run stops
      part-way through rows fetched in an order other than the stored one. */
  method RunDaily(store: Store, currentDay: Model.Day, order: seq<Row>) returns (err: Option<Error>)
    requires store.Valid()
    requires multiset(order) == multiset(Due(store.payments, currentDay + 7))
    modifies store`payments
    ensures store.Valid()
    ensures Consistency.Consistent(old(store.payments)) &&
            (err.None? || order == Due(old(store.payments), currentDay + 7) || Call.GetPaymentsDue in store.refused) ==>
              Consistency.Consistent(store.payments)
    ensures Call.GetPaymentsDue in store.refused ==>
              err == Some(Wrapped("error fetching payments", StorageFailure)) && store.payments == old(store.payments)
    ensures Call.GetPaymentsDue !in store.refused ==>
              var done := FirstRefused(order, store.refused);
              store.payments == ReconcileByIDs(old(store.payments), IDsOf(order[..done]), currentDay) &&
              (err.None? <==> done == |order|) &&
              (err.Some? ==> err.value == Wrapped("failed to update payment status", StorageFailure))
    ensures err.None? ==> store.payments == RunDailyRows(old(store.payments), currentDay)
  {
    var fetched := store.GetPaymentsDue(currentDay + 7, order);
    if fetched.Err? {
      return Some(Wrapped("error fetching payments", fetched.error));
    }
    err := WriteFetched(store, fetched.value, currentDay);
  }

  /** The job after a successful fetch: the fetched payments, which are the
      rows of the daily query in the order the database chose, are
      reconciled and written back. */
  method WriteFetched(store: Store, ps: seq<Entity.Payment>, today: Model.Day) returns (err: Option<Error>)
    requires store.Valid()
    requires Entity.Distinct(ps) && multiset(Entity.RowsOf(ps)) == multiset(Due(store.payments, today + 7))
    modifies store`payments, set p | p in ps
    ensures store.Valid()
    ensures Consistency.Consistent(old(store.payments)) &&
            (err.None? || old(Entity.RowsOf(ps)) == Due(old(store.payments), today + 7)) ==>
              Consistency.Consistent(store.payments)
    ensures var fetched := old(Entity.RowsOf(ps));
            var done := FirstRefused(fetched, store.refused);
            store.payments == ReconcileByIDs(old(store.payments), IDsOf(fetched[..done]), today) &&
            (err.None? <==> done == |fetched|) &&
            (err.Some? ==> err.value == Wrapped("failed to update payment status", StorageFailure))
    ensures err.None? ==> store.payments == RunDailyRows(old(store.payments), today)
  {
    ghost var before := store.payments;
    ghost var fetched := Entity.RowsOf(ps);
    FetchOrderFacts(before, today + 7, fetched);
    var done := WriteBack(store, ps, fetched, today);
    FetchedPrefixOutcome(before, today, fetched, done, store.nextPaymentID, store.nextLoanID);
    if done < |ps| {
      err := Some(Wrapped("failed to update payment status", StorageFailure));
    } else {
      err := None;
    }
  }

  /** What writing back a prefix of the fetched rows amounts to, whatever
      order they were fetched in: the schema is kept; all of them is the
      whole day's work and keeps the table consistent; and a part of them
      keeps it consistent when they were fetched in stored order. */
  lemma FetchedPrefixOutcome(rows: seq<Row>, today: Model.Day, order: seq<Row>, done: nat, nextPaymentID: nat, nextLoanID: nat)
    requires RowsValid(rows, nextPaymentID, nextLoanID)
    requires multiset(order) == multiset(Due(rows, today + 7)) && done <= |order|
    ensures RowsValid(ReconcileByIDs(rows, IDsOf(order[..done]), today), nextPaymentID, nextLoanID)
    ensures done == |order| ==> ReconcileByIDs(rows, IDsOf(order[..done]), today) == RunDailyRows(rows, today)
    ensures Consistency.Consistent(rows) && (done == |order| || order == Due(rows, today + 7)) ==>
              Consistency.Consistent(ReconcileByIDs(rows, IDsOf(order[..done]), today))
  {
    ReconcileByIDsKeepsValid(rows, IDsOf(order[..done]), today, nextPaymentID, nextLoanID);
    if done == |order| {
      assert order[..done] == order;
      CompleteRunIsDailyRun(rows, today, order, nextPaymentID, nextLoanID);
    } else if order == Due(rows, today + 7) {
      WrittenBackOutcome(rows, today, done, nextPaymentID, nextLoanID);
    }
  }

  /** Writing back every fetched row, in whatever order, is the whole day's
      work, and keeps the table consistent. */
  lemma CompleteRunIsDailyRun(rows: seq<Row>, today: Model.Day, order: seq<Row>, nextPaymentID: nat, nextLoanID: nat)
    requires RowsValid(rows, nextPaymentID, nextLoanID)
    requires multiset(order) == multiset(Due(rows, today + 7))
    ensures ReconcileByIDs(rows, IDsOf(order), today) == RunDailyRows(rows, today)
    ensures Consistency.Consistent(rows) ==> Consistency.Consistent(ReconcileByIDs(rows, IDsOf(order), today))
  {
    var due := Due(rows, today + 7);
    FetchOrderFacts(rows, today + 7, order);
    var _ := ReconcileDuePrefix(rows, today, |due|);
    assert due[..|due|] == due;
    if Consistency.Consistent(rows) {
      Consistency.ReconcileKeepsConsistent(rows, today, |rows|);
    }
  }

  /** Rewriting any set of rows with their reconciled status keeps the schema. */
  lemma ReconcileByIDsKeepsValid(rows: seq<Row>, ids: set<nat>, today: Model.Day, nextPaymentID: nat, nextLoanID: nat)
    requires RowsValid(rows, nextPaymentID, nextLoanID)
    ensures RowsValid(ReconcileByIDs(rows, ids, today), nextPaymentID, nextLoanID)
  {
    var after := ReconcileByIDs(rows, ids, today);
    forall k | 0 <= k < |after| ensures KnownPaymentName(after[k]) {
      assert KnownPaymentName(rows[k]);
    }
    StatusChangeKeepsValid(rows, after, nextPaymentID, nextLoanID);
  }

  /** The daily job as written can break the business invariant. Take a
      loan whose earlier payment is outstanding and whose next one, scheduled,
      falls due this week. The database returns the later row first and then
      refuses the write of the earlier one: the later row becomes outstanding
      while the earlier one is still outstanding. */
  lemma UnorderedPartWayRunBreaksConsistency(earlier: Row, later: Row, today: Model.Day)
    requires earlier.LoanID == later.LoanID && earlier.ID != later.ID
    requires earlier.Week < later.Week && earlier.DueDate + 7 <= later.DueDate
    requires earlier.Status == "outstanding" && later.Status == "scheduled"
    requires today <= later.DueDate < today + 7
    ensures var rows := [earlier, later];
            var order := [later, earlier];
            var refused := {Call.UpdatePaymentStatus(earlier.ID)};
            RowsValid(rows, earlier.ID + later.ID + 1, earlier.LoanID + 1) && Consistency.Consistent(rows) &&
            multiset(order) == multiset(Due(rows, today + 7)) &&
            FirstRefused(order, refused) == 1 &&
            !Consistency.Consistent(ReconcileByIDs(rows, IDsOf(order[..1]), today))
  {
    var rows := [earlier, later];
    var order := [later, earlier];
    TwoRowTable(earlier, later);
    assert Due(rows, today + 7) == rows by {
      assert rows[1..] == [later] && rows[1..][1..] == [];
    }
    assert FirstRefused(order, {Call.UpdatePaymentStatus(earlier.ID)}, 1) == 1;
    assert IDsOf(order[..1]) == {later.ID} by {
      assert order[..1] == [later];
    }
    var after := ReconcileByIDs(rows, {later.ID}, today);
    assert after[0] == earlier;
    assert after[1].Status == "outstanding";
  }

  /** A loan's outstanding row followed by its next, scheduled one is a
      valid and consistent table. */
  lemma TwoRowTable(earlier: Row, later: Row)
    requires earlier.LoanID == later.LoanID && earlier.ID != later.ID
    requires earlier.Week < later.Week && earlier.DueDate + 7 <= later.DueDate
    requires earlier.Status == "outstanding" && later.Status == "scheduled"
    ensures RowsValid([earlier, later], earlier.ID + later.ID + 1, earlier.LoanID + 1)
    ensures Consistency.Consistent([earlier, later])
  {
    assert KnownPaymentName(earlier) && KnownPaymentName(later);
  }

  /** Rows written back in the stored (week) order: whatever prefix of the
      query's rows was written, the schema and consistency are kept, and the
      whole prefix is the whole day's work. */
  lemma WrittenBackOutcome(rows: seq<Row>, today: Model.Day, done: nat, nextPaymentID: nat, nextLoanID: nat)
    requires RowsValid(rows, nextPaymentID, nextLoanID) && done <= |Due(rows, today + 7)|
    ensures RowsValid(ReconcileByIDs(rows, IDsOf(Due(rows, today + 7)[..done]), today), nextPaymentID, nextLoanID)
    ensures Consistency.Consistent(rows) ==>
              Consistency.Consistent(ReconcileByIDs(rows, IDsOf(Due(rows, today + 7)[..done]), today))
    ensures done == |Due(rows, today + 7)| ==>
              ReconcileByIDs(rows, IDsOf(Due(rows, today + 7)[..done]), today) == RunDailyRows(rows, today)
  {
    var bound := ReconcileDuePrefix(rows, today, done);
    ReconcileKeepsValid(rows, today, bound, nextPaymentID, nextLoanID);
    if Consistency.Consistent(rows) {
      Consistency.ReconcileKeepsConsistent(rows, today, bound);
    }
  }

  /** The daily job keeps every stored status a known name. */
  lemma ReconcileKeepsValid(rows: seq<Row>, today: Model.Day, bound: nat, nextPaymentID: nat, nextLoanID: nat)
    requires RowsValid(rows, nextPaymentID, nextLoanID)
    ensures RowsValid(ReconcileBelow(rows, today, bound), nextPaymentID, nextLoanID)
  {
    var after := ReconcileBelow(rows, today, bound);
    forall k | 0 <= k < |after| ensures KnownPaymentName(after[k]) {
      assert KnownPaymentName(rows[k]);
    }
    StatusChangeKeepsValid(rows, after, nextPaymentID, nextLoanID);
  }

  /** Sets each fetched payment's reconciled status and writes it back, in
      order, stopping at the first refused write; answers how many were
      written. */
  method WriteBack(store: Store, ps: seq<Entity.Payment>, ghost rows: seq<Row>, today: Model.Day) returns (done: nat)
    requires Entity.Distinct(ps) && |ps| == |rows|
    requires forall j :: 0 <= j < |ps| ==> ps[j].ToModel() == rows[j]
    requires UniqueIDs(store.payments)
    requires forall j :: 0 <= j < |rows| ==> rows[j] in store.payments
    modifies store`payments, set p | p in ps
    ensures done == FirstRefused(rows, store.refused)
    ensures store.payments == ReconcileByIDs(old(store.payments), IDsOf(rows[..done]), today)
  {
    ghost var before := store.payments;
    ghost var ids: set<nat> := {};
    ghost var stop := FirstRefused(rows, store.refused);
    done := 0;
    while done < |ps|
      invariant done <= |ps| && ids == IDsOf(rows[..done])
      invariant store.payments == ReconcileByIDs(before, ids, today)
      invariant forall j :: done <= j < |ps| ==> ps[j].ToModel() == rows[j]
      invariant done <= stop
    {
      assert ps[done].id == rows[done].ID;
      var failed := ReconcileOne(store, ps[done], today);
      FirstRefusedIsFirst(rows, store.refused, 0, done);
      assert failed <==> done == stop;
      if failed {
        return;
      }
      ghost var k :| 0 <= k < |before| && before[k] == rows[done];
      ReconcileByIDsStep(before, ids, today, k);
      IDsOfPrefixStep(rows, done);
      ids := ids + {rows[done].ID};
      done := done + 1;
    }
  }

  /** One pass of the loop body: the payment takes its reconciled status and
      is written back. */
  method ReconcileOne(store: Store, p: Entity.Payment, today: Model.Day) returns (failed: bool)
    modifies store`payments, p`status
    ensures p.id == old(p.id)
    ensures p.ToModel() == old(p.ToModel()).(Status := ReconciledStatus(old(p.ToModel()), today))
    ensures failed <==> Call.UpdatePaymentStatus(p.id) in store.refused
    ensures store.payments == if failed then old(store.payments)
                              else WithStatus(old(store.payments), p.id, ReconciledStatus(old(p.ToModel()), today))
  {
    var nextWeek := today + 7;
    if p.dueDate < today {
      var _ := p.SetStatus("pending");
    } else if p.dueDate < nextWeek && p.Status() == "scheduled" {
      var _ := p.SetStatus("outstanding");
    }
    var err := store.UpdatePaymentStatus(p);
    failed := err.Some?;
  }
}
