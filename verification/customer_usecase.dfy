// The delinquency lookup: a read-only query answering whether a customer
// has two or more pending payments across all their loans.

module CustomerUsecase {
  import opened Results
  import opened Queries
  import Delinquency
  import Entity
  import opened Repository

  const LookupFailed: string := "failed to retrieve customer for delinquency check"

  /** Answers for the customer `customerID`. An unknown customer is not
      delinquent and is no error; any other failure of the lookup is an
      error with the answer false; a customer the lookup rebuilds answers
      what the customer entity answers, where a nil dereference on the way
      is reported as that error. */
  method IsDelinquent(store: Store, customerID: nat) returns (delinquent: bool, err: Option<Error>)
    ensures Call.GetCustomerByID in store.refused ==>
              !delinquent && err == Some(Wrapped(LookupFailed, Wrapped("failed to retrieve customer", StorageFailure)))
    ensures Call.GetCustomerByID !in store.refused && FindCustomer(store.customers, customerID).None? ==>
              !delinquent && err.None?
    ensures Call.GetCustomerByID !in store.refused && FindCustomer(store.customers, customerID).Some? ==>
              var m := Preloaded(FindCustomer(store.customers, customerID).value, store.loans, store.payments);
              (!Entity.CustomerLoadable(m) ==>
                 !delinquent && err == Some(Wrapped(LookupFailed, Entity.MakeLoanError(m.Loans.value[Entity.FirstUnloadable(m.Loans.value)])))) &&
              (Entity.CustomerLoadable(m) && Entity.LoadedLoans(m).None? ==> !delinquent && err == Some(NilDereference)) &&
              (Entity.CustomerLoadable(m) && Entity.LoadedLoans(m).Some? ==>
                 var lists := Entity.ListsOf(Entity.LoadedLoans(m).value);
                 (Delinquency.AllPresent(lists) ==> err.None? && delinquent == (Delinquency.PendingTotal(lists) >= 2)) &&
                 (delinquent ==> Delinquency.PendingTotal(lists) >= 2) &&
                 (!Delinquency.AllPresent(lists) && !delinquent ==> err == Some(NilDereference)) &&
                 var n := Delinquency.FirstAbsent(lists);
                 (delinquent, err) == if Delinquency.PendingTotal(lists[..n]) >= 2 then (true, None)
                                      else if n < |lists| then (false, Some(NilDereference))
                                      else (false, None))
    ensures delinquent ==> err.None?
  {
    var found := store.GetCustomerByID(customerID);
    if found.Err? {
      if found.error == RecordNotFound {
        return false, None;
      }
      return false, Some(Wrapped(LookupFailed, found.error));
    }
    var answer := found.value.IsDelinquent();
    if answer.Err? {
      return false, Some(answer.error);
    }
    return answer.value, None;
  }
}
