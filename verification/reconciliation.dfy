// The daily status rule: payments already due become pending, and a
// scheduled payment falling due within the coming week becomes outstanding.

module Reconciliation {
  import Model
  import opened Queries

  /** The status the daily job writes for a fetched payment on `today`. */
  function ReconciledStatus(r: Row, today: Model.Day): (status: string)
    ensures r.DueDate < today ==> status == "pending"
    ensures status != r.Status ==>
              status == "pending" || (status == "outstanding" && r.Status == "scheduled" && today <= r.DueDate < today + 7)
  {
    if r.DueDate < today then "pending"
    else if r.DueDate < today + 7 && r.Status == "scheduled" then "outstanding"
    else r.Status
  }

  /** A row as the daily job on `today` leaves it. */
  function Reconciled(r: Row, today: Model.Day): Row
  {
    if Fetched(r, today + 7) then r.(Status := ReconciledStatus(r, today)) else r
  }

  /** The rows whose ids are in `ids` rewritten with their reconciled status. */
  function ReconcileByIDs(rows: seq<Row>, ids: set<nat>, today: Model.Day): (updated: seq<Row>)
    ensures |updated| == |rows|
    ensures forall k :: 0 <= k < |rows| ==>
              updated[k] == if rows[k].ID in ids then rows[k].(Status := ReconciledStatus(rows[k], today)) else rows[k]
  {
    seq(|rows|, k requires 0 <= k < |rows| =>
      if rows[k].ID in ids then rows[k].(Status := ReconciledStatus(rows[k], today)) else rows[k])
  }

  /** Writing back the reconciled status of one more stored row, by its id,
      extends the set of rewritten ids by that id. */
  lemma ReconcileByIDsStep(rows: seq<Row>, ids: set<nat>, today: Model.Day, k: nat)
    requires UniqueIDs(rows) && k < |rows|
    ensures WithStatus(ReconcileByIDs(rows, ids, today), rows[k].ID, ReconciledStatus(rows[k], today))
              == ReconcileByIDs(rows, ids + {rows[k].ID}, today)
  {
    var written := WithStatus(ReconcileByIDs(rows, ids, today), rows[k].ID, ReconciledStatus(rows[k], today));
    var wanted := ReconcileByIDs(rows, ids + {rows[k].ID}, today);
    forall j | 0 <= j < |rows| ensures written[j] == wanted[j] {
      if rows[j].ID == rows[k].ID {
        UniqueIDsSameRow(rows, j, k);
      }
    }
  }

  /** The table after the daily job has handled every fetched row stored below `bound`. */
  function ReconcileBelow(rows: seq<Row>, today: Model.Day, bound: nat): (updated: seq<Row>)
    ensures |updated| == |rows|
    ensures forall k :: 0 <= k < |rows| ==> updated[k] == if k < bound then Reconciled(rows[k], today) else rows[k]
  {
    seq(|rows|, k requires 0 <= k < |rows| => if k < bound then Reconciled(rows[k], today) else rows[k])
  }

  /** The table after a complete daily run. */
  function RunDailyRows(rows: seq<Row>, today: Model.Day): seq<Row>
  {
    ReconcileBelow(rows, today, |rows|)
  }

  /** Rewriting the first m fetched rows by id is the same as handling every
      fetched row stored below some bound. */
  lemma ReconcileDuePrefix(rows: seq<Row>, today: Model.Day, m: nat) returns (b: nat)
    requires UniqueIDs(rows) && m <= |Due(rows, today + 7)|
    ensures ReconcileByIDs(rows, IDsOf(Due(rows, today + 7)[..m]), today) == ReconcileBelow(rows, today, b)
    ensures m == |Due(rows, today + 7)| ==>
              ReconcileByIDs(rows, IDsOf(Due(rows, today + 7)[..m]), today) == RunDailyRows(rows, today)
  {
    b := DueBound(rows, today + 7, m);
    var ids := IDsOf(Due(rows, today + 7)[..m]);
    forall k | 0 <= k < |rows|
      ensures ReconcileByIDs(rows, ids, today)[k] == ReconcileBelow(rows, today, b)[k]
    {
      DueIDsBelow(rows, today + 7, b, k);
    }
    if m == |Due(rows, today + 7)| {
      assert Due(rows, today + 7)[..m] == Due(rows, today + 7);
      assert rows[..|rows|] == rows;
      forall k | 0 <= k < |rows|
        ensures ReconcileByIDs(rows, ids, today)[k] == RunDailyRows(rows, today)[k]
      {
        DueIDsBelow(rows, today + 7, |rows|, k);
      }
    }
  }

  /** Running the daily job twice on the same day changes nothing more. */
  lemma RunDailyIdempotent(rows: seq<Row>, today: Model.Day)
    ensures RunDailyRows(RunDailyRows(rows, today), today) == RunDailyRows(rows, today)
  {
    var once := RunDailyRows(rows, today);
    forall k | 0 <= k < |rows|
      ensures RunDailyRows(once, today)[k] == once[k]
    {
      assert once[k] == Reconciled(rows[k], today);
    }
  }

  /** Progress order of payment statuses: scheduled, outstanding, pending, paid. */
  function StatusRank(status: string): nat
  {
    if status == "scheduled" then 0
    else if status == "outstanding" then 1
    else if status == "pending" then 2
    else 3
  }

  /** The daily job only moves statuses forward, and never writes paid or scheduled. */
  lemma ReconcileMovesForward(rows: seq<Row>, today: Model.Day, bound: nat, k: nat)
    requires k < |rows|
    ensures StatusRank(ReconcileBelow(rows, today, bound)[k].Status) >= StatusRank(rows[k].Status)
    ensures ReconcileBelow(rows, today, bound)[k].Status == "paid" ==> rows[k].Status == "paid"
    ensures ReconcileBelow(rows, today, bound)[k].Status == "scheduled" ==> rows[k].Status == "scheduled"
    ensures ReconcileBelow(rows, today, bound)[k].Status == "scheduled" ==> rows[k].DueDate >= today + 7 || k >= bound
  {
  }
}
