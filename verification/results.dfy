// Outcome wrappers shared by every module of the billing engine model.

module Results {

  datatype Option<+T> = None | Some(value: T)

  /** The errors the engine reports. Go runtime panics (nil pointer
      dereference, index out of range) are modelled as error values that end
      the operation at the point where the panic would occur. */
  datatype Error =
    | InvalidPaymentStatus(status: string)
    | InvalidLoanStatus(status: string)
    | InvalidLoanData
    | MultipleOutstanding
    | EmptyPayments
    | AmountMismatch
    | RecordNotFound
    | StorageFailure
    | Wrapped(context: string, cause: Error)
    | NilDereference
    | IndexOutOfRange

  datatype Result<+T> = Ok(value: T) | Err(error: Error)
}
