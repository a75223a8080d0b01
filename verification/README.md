# billing_engine: a verified model of an instalment-loan billing engine

The system lends a customer an amount at a flat interest rate. The total
(principal plus interest) is repaid in equal weekly instalments. Each
instalment is a payment row with a status:

- `scheduled`: not yet due;
- `outstanding`: the current week's instalment;
- `pending`: overdue and unpaid;
- `paid`.

A loan is `open` or `close`.

This project models the engine's core:

- **Opening a loan.** Find or register the borrower, store the loan, generate and store its schedule, and answer with the first instalment.
- **Quoting a loan.** Answer what is owed now, classifying its pending and outstanding payments.
- **Applying a payment.** Validate the amount against the quote within an epsilon. Mark payments paid in week order while the amount lasts. Then promote the next scheduled payment or close the loan.
- **The daily job.** Overdue payments become pending, and scheduled payments due within the week become outstanding.
- **The delinquency query.** A customer is delinquent once two or more of their payments are pending.
- **The entities.** Payment, loan and customer, with their status enums and the conversions from database records.
- **The request-field validators.**

## Shape of the model

- `results.dfy`: `Option`, `Result` and the error values. A Go panic on a nil pointer or a slice index becomes the error `NilDereference` or `IndexOutOfRange`.
- `enum.dfy`: the payment and loan status enums, their names, and parsing a name back.
- `model.dfy`: the database records as datatypes. Days are whole day numbers, and money is `real`.
- `billing.dfy`: the calculator, as functions over payment rows:
  - the quote (`OutstandingTotal`) and the quoted row;
  - how far a payment reaches (`PaidPrefix`);
  - the schedule of a new loan;
  - lemmas on settling the quote.
- `queries.dfy`: what each repository query selects or updates, as functions over the stored rows. `Call` names each database call. A store can refuse any call, which stands for every database failure.
- `reconciliation.dfy`: the daily status rule and the table after a full or partial run, including idempotence.
- `consistency.dfy`: the business invariant of the payment table. Within a loan, once a payment is scheduled or outstanding, no later payment of that loan is outstanding or pending. Every operation keeps it, except a daily run that stops part-way through rows the database returned out of week order (see "Findings").
- `delinquency.dfy`: the customer's pending-payment scan.
- `entity.dfy`: the entity classes, whose setters update fields in place, with their constructors and record conversions.
- `repository.dfy`: the `Store` class holding the three tables and the id counters. Its methods are the repository calls, and `Valid()` states the schema guarantees.
- `payment_usecase.dfy`, `customer_usecase.dfy` and `loan_usecase.dfy`: the use cases as methods on the store.
  - Each is specified against a function of the tables before the call (`NewLoanOutcome`, `QuoteOf`, `PaymentOutcome`, `NextPaymentStep`, `RunDailyRows`).
  - Each keeps `Valid()`. Each keeps the business invariant too, except a daily run that stops part-way through rows fetched out of week order.
- `validators.dfy`: the three field validators. The two patterns are written as greedy matchers, and the money check goes through the two-decimal rendering.

Where the code and its design notes differ, the model follows the code:

- **When a loan closes.** After a payment the loan is closed when no payment of it is scheduled or outstanding, even if some are still pending. See "Findings".
- **One pending payment.** With exactly one pending payment and one outstanding payment, the quote is the pending amount alone, and so is the due date and week it reports.
- **No open payments.** Quoting or paying a loan that has no pending or outstanding payment dereferences a nil payment list. The repository returns a nil list rather than an empty one, so the early `return nil, nil` of the quote is never reached.
- **A term of zero weeks.** A loan with a term of zero or fewer weeks is stored, no payments are generated, and the response then indexes an empty slice.

## Model

| member | source | states |
|---|---|---|
| Enum.PaymentStatusString | internal/entity/enum/payment_enum.go:26-31 | a code below 4 names one of the four payment statuses, any other code is "unknown" |
| Enum.ParsePaymentStatus | internal/entity/enum/payment_enum.go:34-42 | a name parses exactly when it is one of the four, to the code whose name it is; otherwise code -1 and an invalid-status error |
| Enum.ParsePaymentStatusString | internal/entity/enum/payment_enum.go:26-42 | parsing the name of a valid code gives that code back |
| Enum.PaymentStatusCodes | internal/entity/enum/payment_enum.go:11-24 | the accepted names are exactly scheduled, outstanding, paid, pending, with codes in that order |
| Enum.LoanStatusString | internal/entity/enum/loan_enum.go:22-27 | a code below 2 names open or close, any other code is "unknown" |
| Enum.ParseLoanStatus | internal/entity/enum/loan_enum.go:30-38 | a name parses exactly when it is open or close, to its code; otherwise code -1 and an invalid-status error |
| Enum.ParseLoanStatusString | internal/entity/enum/loan_enum.go:22-38 | parsing the name of a valid loan code gives that code back |
| Enum.LoanStatusCodes | internal/entity/enum/loan_enum.go:11-20 | the accepted loan names are exactly open and close; "closed" is rejected |
| Entity.Payment.SetStatus | internal/entity/payment_entity.go:111-122 | an unknown name is an error and leaves the status unchanged; a known one becomes the status |
| Entity.CreatePayment | internal/entity/payment_entity.go:21-42 | fails exactly on an unknown status; otherwise a fresh payment holding the given fields and id 0 |
| Entity.MakePayment | internal/entity/payment_entity.go:44-67 | rebuilding a record fails exactly on an unknown status; otherwise the payment converts back to the same record |
| Entity.Payment.ToModel | internal/entity/payment_entity.go:69-78 | the record carries the payment's fields |
| Entity.StatusKnown | internal/entity/payment_entity.go:11-19 | a payment's status is always a known name, and its record's status parses back to it |
| Entity.Loan.GetStatus | internal/entity/loan_entity.go:265-267 | a loan's status name is always open or close, and parses back to its code |
| Entity.Loan.ToModel | internal/entity/loan_entity.go:115-139 | the record carries the loan's id, customer, amounts, term, rate and days; its status parses to the loan's status; its payment list is the payments' records, empty when the loan has none |
| Entity.Loan.HasOneOutstandingPayment | internal/entity/loan_entity.go:142-157 | no error exactly when the loan has no payment list or at most one of its payments is outstanding |
| Entity.Loan.GetTotalOutstandingAmount | internal/entity/loan_entity.go:176-211 | absent exactly when the payment list is absent; otherwise the quote of the loan's payments |
| Entity.Loan.ValidateAmount | internal/entity/loan_entity.go:159-174 | without a payment list an error; otherwise accepted exactly when the amount is within epsilon of the quote |
| Entity.Loan.SetStatus | internal/entity/loan_entity.go:247-262 | an unknown name is an error and leaves the status unchanged; a known one becomes the status |
| Entity.CreateLoan | internal/entity/loan_entity.go:27-47 | a fresh open loan without payments whose total is principal plus interest at the given percentage |
| Entity.MakePayments | internal/entity/loan_entity.go:84-103 | fails at the first record with an unknown status, with its error; otherwise distinct fresh payments whose records are the input, in order |
| Entity.MakeLoan | internal/entity/loan_entity.go:50-112 | succeeds exactly when the record is loadable (positive amount and term, non-negative rate, known statuses, at most one outstanding payment); the error otherwise is the first failing check's; the loan converts back to the record, an empty payment list read as absent |
| Entity.Customer.ToModel | internal/entity/customer_entity.go:42-58 | the record carries the customer's fields, and its loans exactly when there are some |
| Entity.Customer.IsDelinquent | internal/entity/customer_entity.go:70-85 | a nil loan list is a nil dereference, and that is the only error; with every payment list present the answer is whether two or more payments are pending in all; a false answer means every list was present; a true answer always rests on two pending payments; exactly: true when the lists before the first absent one hold two pending payments, otherwise a nil dereference if a list is absent, otherwise false |
| Entity.CreateCustomer | internal/entity/customer_entity.go:12-18 | a fresh customer with the given id, name and email and no loans |
| Entity.MakeCustomer | internal/entity/customer_entity.go:20-39 | succeeds exactly when every loan record is loadable; the error otherwise is the first unloadable loan's; the customer carries the record's fields and loaded loans |
| Entity.FirstUnknownStatus | internal/entity/loan_entity.go:91-100 | the first record whose status is not a known name, or the length |
| Entity.FirstUnloadable | internal/entity/customer_entity.go:28-32 | the first loan record that cannot be rebuilt, or the length |
| Billing.CountStatus | internal/entity/loan_entity.go:142-157 | the count is zero exactly when no row has the status |
| Billing.CountAtMostOne | internal/entity/loan_entity.go:142-157 | the count test of the single-outstanding check means that no two rows are both outstanding |
| Billing.PendingRows | internal/usecase/loan_usecase.go:259-265 | the pending rows, in order |
| Billing.LastWithStatus | internal/usecase/loan_usecase.go:259-265 | the last outstanding row, which the classifying loop keeps; absent exactly when no row is outstanding |
| Billing.OutstandingTotal | internal/usecase/loan_usecase.go:254-283 | without an outstanding row the quote is zero |
| Billing.QuotedRow | internal/usecase/loan_usecase.go:138-159 | the row whose due date and week a quote reports: absent exactly when none is outstanding, pending exactly when one payment is pending |
| Billing.QuoteOfArrears | internal/usecase/loan_usecase.go:138-159 | for arrears followed by the current instalment, the quote is their sum, except that one pending payment is quoted alone; the reported row matches |
| Billing.SplitPendingLast | internal/usecase/loan_usecase.go:130-136 | rows that are pending except possibly an outstanding last one split into their pending rows and that last row |
| Billing.PaidPrefix | internal/usecase/loan_usecase.go:230-243 | how many leading rows a payment settles, never more than there are |
| Billing.PaidPrefixStopsAtFirstShortfall | internal/usecase/loan_usecase.go:231-240 | every settled prefix costs at most the amount, and the first unsettled row would exceed it |
| Billing.PaidPrefixCovers | internal/usecase/loan_usecase.go:231-240 | paying the sum of a run of non-negative instalments plus a remainder settles the whole run and carries the remainder on |
| Billing.PayingQuoteSettlesQuoted | internal/usecase/loan_usecase.go:187-198 | paying exactly the quote settles every quoted instalment: arrears and current, or the single pending one alone |
| Billing.AcceptedShortfallLeavesCurrentUnpaid | internal/usecase/loan_usecase.go:245-252 | an amount short of the quote by at most epsilon is accepted, yet with two or more pending payments it leaves the current instalment unpaid |
| Billing.TotalAmountBounds | internal/entity/loan_entity.go:28 | with a rate the percentage check accepts, the total lies between the principal and twice the principal |
| Billing.Schedule | internal/usecase/loan_usecase.go:81-89 | one row per week, numbered from 1, due seven days apart after the start |
| Billing.ScheduleSumsToTotal | internal/usecase/loan_usecase.go:77-89 | the instalments of a schedule add up to the loan's total |
| Queries.Due | internal/repository/payment_repository.go:29-45 | the daily query selects exactly the scheduled or outstanding rows due before next week (listed in stored order; the database may return them in any order) |
| Queries.FetchOrderFacts | internal/repository/payment_repository.go:29-45 | whatever order the database returns the query's rows in, the same ids are fetched, and each fetched row is a stored row the query selects |
| Queries.PaymentsOf | internal/repository/customer_repository.go:44-61 | the rows preloaded with a loan are exactly that loan's rows |
| Queries.OutstandingOf | internal/repository/loan_repository.go:72-96 | the rows preloaded for a payment are exactly the loan's pending and outstanding rows |
| Queries.OutstandingOfWeekSorted | internal/repository/loan_repository.go:72-96 | in a week-ordered table the preloaded open rows come sorted by week, as the query's ascending order returns them |
| Queries.NextIndex | internal/repository/payment_repository.go:52-66 | the next-payment query finds the loan's earliest scheduled or outstanding row, and no earlier row of the loan is either |
| Queries.NextRowEarliestWeek | internal/repository/payment_repository.go:52-66 | in a week-ordered table the next payment found has the lowest week among the loan's scheduled and outstanding payments |
| Queries.PromoteKeepsNext | internal/usecase/loan_usecase.go:221-226 | promoting the next payment to outstanding leaves it the loan's next payment |
| Queries.WithStatus | internal/repository/payment_repository.go:48-50 | a status update by id rewrites exactly the row with that id |
| Queries.MarkPaid | internal/usecase/loan_usecase.go:231-237 | exactly the rows with the given ids are paid, and the others are unchanged |
| Queries.MarkPaidKeepsWeekOrder | internal/usecase/loan_usecase.go:230-243 | marking payments paid keeps the table week-ordered |
| Queries.FirstRefused | internal/usecase/loan_usecase.go:235-237 | the first row whose status write the database refuses, or the length |
| Queries.FindLoan | internal/repository/loan_repository.go:72-96 | the stored loan with the id, when there is one |
| Queries.LoansOf | internal/repository/customer_repository.go:44-61 | the loans preloaded with a customer are exactly the customer's |
| Queries.WithLoanStatus | internal/repository/loan_repository.go:98-112 | a loan status update rewrites exactly the loans with that id |
| Queries.FindCustomer | internal/repository/customer_repository.go:44-61 | the stored customer with the id, when there is one |
| Reconciliation.ReconciledStatus | internal/usecase/payment_usecase.go:43-48 | an overdue payment becomes pending; the only other change is scheduled to outstanding for a payment due within the week |
| Reconciliation.ReconcileByIDs | internal/usecase/payment_usecase.go:42-58 | exactly the rows with the written ids take their reconciled status |
| Reconciliation.ReconcileDuePrefix | internal/usecase/payment_usecase.go:42-58 | writing back the first fetched rows handles every fetched row below some table bound, and all of them once all are written |
| Reconciliation.RunDailyIdempotent | internal/usecase/payment_usecase.go:26-62 | running the job twice on the same day gives the statuses of running it once |
| Reconciliation.ReconcileMovesForward | internal/usecase/payment_usecase.go:43-48 | the job only moves a status forward and never writes paid or scheduled |
| Consistency.AtMostOneOutstanding | internal/entity/loan_entity.go:142-157 | in a consistent table a loan has at most one outstanding payment |
| Consistency.ReconcileKeepsConsistent | internal/usecase/payment_usecase.go:42-58 | the daily job writing rows back in stored order keeps a week-ordered table consistent, whether it completes or stops part-way |
| Consistency.MarkPaidKeepsConsistent | internal/usecase/loan_usecase.go:230-243 | marking payments paid keeps the table consistent |
| Consistency.PromoteNextKeepsConsistent | internal/usecase/loan_usecase.go:221-226 | promoting the next scheduled payment keeps the table consistent |
| Consistency.AppendScheduleKeepsConsistent | internal/usecase/loan_usecase.go:81-94 | appending a new loan's schedule keeps the table week-ordered and consistent |
| Consistency.OutstandingOfSplit | internal/repository/loan_repository.go:72-96 | in a consistent table, the rows a payment reads are the pending ones followed by at most one outstanding row |
| Delinquency.ScanLoansCounts | internal/entity/customer_entity.go:70-85 | with every payment list present, the scan answers whether the pending payments number two or more |
| Delinquency.ScanTrueMeansTwoPending | internal/entity/customer_entity.go:70-85 | a true answer rests on two pending payments, whether or not some lists are absent |
| Delinquency.MarkPendingKeepsDelinquent | internal/entity/customer_entity.go:70-85 | a payment turning pending never makes a delinquent customer non-delinquent |
| Delinquency.ScanLoans | internal/entity/customer_entity.go:70-85 | the only error of the scan over the loans is a nil dereference, and a false answer means every payment list was present |
| Delinquency.FirstAbsent | internal/entity/customer_entity.go:72-73 | the position of the first loan without a payment list: all before it have one |
| Delinquency.ScanLoansExact | internal/entity/customer_entity.go:70-85 | the scan's exact outcome: true when the lists before the first absent one hold two pending payments, otherwise a nil dereference if a list is absent, otherwise false |
| Delinquency.ScanPaymentsExact | internal/entity/customer_entity.go:74-82 | the same exact outcome for the scan over one payment list and the lists after it |
| Delinquency.ScanPayments | internal/entity/customer_entity.go:74-82 | the same for the scan over one payment list and the lists after it |
| Repository.Store.constructor | internal/repository/loan_repository.go:25-29 | an empty database satisfies the schema |
| Repository.Store.GetCustomerByID | internal/repository/customer_repository.go:44-61 | a refused lookup is a wrapped storage error; an unknown id is record-not-found; otherwise the customer preloaded with its loans and their payments, or the first conversion error |
| Repository.Store.SaveCustomer | internal/repository/customer_repository.go:28-42 | fails exactly when refused or when the id or email is taken; otherwise appends the customer |
| Repository.Store.SaveLoan | internal/repository/loan_repository.go:31-46 | fails exactly when refused or when the customer is unknown; otherwise stores the loan under the next id, which the loan receives |
| Repository.Store.GetOutstandingPayments | internal/repository/loan_repository.go:72-96 | the loan preloaded with its pending and outstanding rows, sorted by week as the query orders them, or the error of the failed lookup or conversion |
| Repository.Store.UpdateLoanStatus | internal/repository/loan_repository.go:98-112 | a refused update is a wrapped error and writes nothing; otherwise the loan's stored status becomes the entity's |
| Repository.Store.SavePayments | internal/usecase/loan_usecase.go:91-94 | a refused insert writes nothing; otherwise the payments are appended under the next ids |
| Repository.Store.GetPaymentsDue | internal/repository/payment_repository.go:29-45 | a refused fetch is a storage error; otherwise the fetched payments are the daily query's rows, in the order the database returns them (any arrangement of those rows), as distinct fresh entities |
| Repository.Store.UpdatePaymentStatus | internal/repository/payment_repository.go:48-50 | a refused update writes nothing; otherwise the row with the payment's id takes its status |
| Repository.Store.GetNextPayment | internal/repository/payment_repository.go:52-66 | the loan's scheduled or outstanding payment of the lowest week, none when there is none, or a storage error |
| Repository.OpenLoanLookup | internal/repository/loan_repository.go:72-96 | a successful lookup yields the loan with exactly its open rows, in a form the entity accepts |
| Repository.StatusChangeKeepsValid | internal/repository/payment_repository.go:48-50 | rewriting statuses with known names keeps the schema guarantees |
| Repository.FetchedStatusesKnown | internal/repository/payment_repository.go:29-45 | every fetched row has a known status, so rebuilding the fetched rows cannot fail |
| PaymentUsecase.RunDaily | internal/usecase/payment_usecase.go:26-62 | a refused fetch is an error with no writes; otherwise the rows, in the order fetched, are written back up to the first refused write, which is the error; a complete run, in any fetch order, leaves the day's statuses; the schema is kept; consistency is kept by a complete run and by a run over rows fetched in stored order |
| PaymentUsecase.WriteFetched | internal/usecase/payment_usecase.go:42-61 | after a successful fetch, the table is the fetched rows, in fetch order, reconciled up to the first refused write, which is the error; a complete run is the day's work; the schema is kept; consistency is kept by a complete run and by a run in stored order |
| PaymentUsecase.FetchedPrefixOutcome | internal/usecase/payment_usecase.go:42-58 | writing back any prefix of the fetched rows keeps the schema; the whole of them, in any order, is the day's work and keeps consistency; a part of them keeps consistency when fetched in stored order |
| PaymentUsecase.CompleteRunIsDailyRun | internal/usecase/payment_usecase.go:42-61 | writing back every fetched row, whatever the fetch order, is the day's work and keeps a consistent table consistent |
| PaymentUsecase.ReconcileByIDsKeepsValid | internal/usecase/payment_usecase.go:43-57 | rewriting any set of rows with their reconciled status keeps the schema |
| PaymentUsecase.UnorderedPartWayRunBreaksConsistency | internal/usecase/payment_usecase.go:42-58 | a consistent two-row loan fetched later week first, with the earlier row's write refused, ends with two outstanding rows |
| PaymentUsecase.TwoRowTable | internal/usecase/payment_usecase.go:42-58 | a loan's outstanding row followed by its next scheduled row is a valid, consistent table |
| PaymentUsecase.WrittenBackOutcome | internal/usecase/payment_usecase.go:42-58 | writing back a prefix of the query's rows in stored order keeps the schema and consistency, and the whole of them is the day's work |
| PaymentUsecase.WriteBack | internal/usecase/payment_usecase.go:42-58 | writes stop at the first refused one, and the rows written are exactly those before it |
| PaymentUsecase.ReconcileOne | internal/usecase/payment_usecase.go:43-57 | the payment takes its reconciled status and is written back unless refused |
| CustomerUsecase.IsDelinquent | internal/usecase/customer_usecase.go:26-41 | an unknown customer is not delinquent and no error; a failed lookup is a wrapped error; otherwise the customer entity's answer: a true answer rests on two pending payments, and a loan without a payment list that does not reach a true answer first is a nil dereference; exactly: delinquent when the lists before the first absent one hold two pending payments, otherwise a nil dereference if a list is absent, otherwise not delinquent |
| LoanUsecase.CustomerStep | internal/usecase/loan_usecase.go:55-66 | when the step succeeds the borrower is in the customers table |
| LoanUsecase.FindOrCreateCustomer | internal/usecase/loan_usecase.go:55-66 | the outcome and customers table are those of the customer step, and only customers change |
| LoanUsecase.GeneratePayments | internal/usecase/loan_usecase.go:80-89 | the generated payments are the schedule of the term's weeks, first outstanding and the rest scheduled |
| LoanUsecase.CreateLoan | internal/usecase/loan_usecase.go:53-106 | a failed customer step is the error and nothing else changes; otherwise the tables and answer are the new-loan outcome; schema and consistency are kept |
| LoanUsecase.SaveNewLoan | internal/usecase/loan_usecase.go:68-106 | the tables and answer after storing the loan are the new-loan outcome |
| LoanUsecase.NewLoanOutcome | internal/usecase/loan_usecase.go:53-106 | storing a new loan only appends: at most one loan, and on success exactly one loan under the next id with one payment per week of a positive term, all of that loan |
| LoanUsecase.StoreSchedule | internal/usecase/loan_usecase.go:76-105 | a refused insert writes nothing; otherwise the schedule is stored and the answer is the first instalment, or an index error for an empty term |
| LoanUsecase.NewLoanKeepsValid | internal/usecase/loan_usecase.go:68-94 | storing a new loan, however far it gets, keeps the schema and consistency |
| LoanUsecase.UpdatePaid | internal/usecase/loan_usecase.go:230-243 | the rows paid are the settled prefix cut at the first refused write, which is the only error |
| LoanUsecase.PayOne | internal/usecase/loan_usecase.go:232-237 | one loop pass: the payment is marked paid and written back unless refused |
| LoanUsecase.UpdateNextPayment | internal/usecase/loan_usecase.go:209-228 | the tables and error are the step after a payment |
| LoanUsecase.Classify | internal/usecase/loan_usecase.go:259-265 | the loop collects the pending rows and the last outstanding row |
| LoanUsecase.Sum | internal/usecase/loan_usecase.go:277-279 | the loop adds up the amounts |
| LoanUsecase.GetTotalOutstanding | internal/usecase/loan_usecase.go:254-283 | the result is the quote of the payments |
| LoanUsecase.QuoteOpen | internal/usecase/loan_usecase.go:122-159 | the quote and the reported due date and week of the open rows |
| LoanUsecase.GetOutstanding | internal/usecase/loan_usecase.go:108-171 | the answer is the quote of the stored tables, whose open rows are read in week order, or the lookup's error, or a nil dereference without open rows |
| LoanUsecase.QuoteLoaded | internal/usecase/loan_usecase.go:115-169 | the answer for a fetched loan is an error exactly when it holds no payment list; a quote is for that loan, over a non-empty list, and its amount is the total of the list |
| LoanUsecase.QuoteLoan | internal/usecase/loan_usecase.go:115-169 | classifying and quoting the fetched loan's payments gives the answer its record determines |
| LoanUsecase.QuoteOf | internal/usecase/loan_usecase.go:108-171 | a quote exists exactly when the lookup succeeds and there are open rows; it is for the loan asked, its amount is the total of the open rows, and a reported week is that of an unsettled payment of the loan |
| LoanUsecase.ValidateAmount | internal/usecase/loan_usecase.go:245-252 | no error exactly when the amount is within epsilon of the total, otherwise a mismatch |
| LoanUsecase.MakePayment | internal/usecase/loan_usecase.go:173-207 | the tables and error are the payment outcome of the tables before; schema and consistency are kept; every payment status only moves forward, a paid payment and a closed loan stay as they are |
| LoanUsecase.PayOpen | internal/usecase/loan_usecase.go:187-206 | validate, pay and step on, as the payment outcome on the open rows |
| LoanUsecase.PaymentOutcome | internal/usecase/loan_usecase.go:173-207 | a payment keeps the number of loans and payments; it succeeds only with open rows and an amount within epsilon of their total; a wrong amount writes nothing |
| LoanUsecase.NextPaymentStep | internal/usecase/loan_usecase.go:209-228 | the step after a payment either closes the loan, when no payment is scheduled or outstanding, or promotes the next scheduled payment to outstanding, never both; its only errors are storage failures |
| LoanUsecase.NextPaymentStepKeepsValid | internal/usecase/loan_usecase.go:209-228 | the step after a payment keeps the schema |
| LoanUsecase.PaymentKeepsValid | internal/usecase/loan_usecase.go:173-207 | a payment keeps the schema |
| LoanUsecase.NextPaymentStepKeepsConsistent | internal/usecase/loan_usecase.go:209-228 | the step after a payment keeps the table consistent |
| LoanUsecase.PaymentKeepsConsistent | internal/usecase/loan_usecase.go:173-207 | a payment keeps the table consistent |
| LoanUsecase.PaymentKeepsInvariants | internal/usecase/loan_usecase.go:173-207 | any payment outcome keeps the schema and consistency |
| LoanUsecase.PaymentMovesForward | internal/usecase/loan_usecase.go:173-228 | a payment, however far it gets, changes only statuses, moves each forward, never changes a paid payment and never reopens a closed loan |
| LoanUsecase.PayOpenMovesForward | internal/usecase/loan_usecase.go:187-206 | the same for the payment of the open rows |
| LoanUsecase.MarkPaidMovesForward | internal/usecase/loan_usecase.go:230-243 | marking payments paid moves statuses forward only and keeps ids unique |
| LoanUsecase.NextPaymentStepMovesForward | internal/usecase/loan_usecase.go:209-228 | the step after a payment moves statuses forward only and never reopens a closed loan |
| LoanUsecase.QuoteMatchesPayment | internal/usecase/loan_usecase.go:173-193 | a loan that cannot be quoted cannot be paid, for the same reason and with no write; otherwise a payment is refused as a mismatch exactly when it is not within epsilon of the quote, and a refused payment writes nothing |
| LoanUsecase.PayOpenMismatch | internal/usecase/loan_usecase.go:187-193 | the only mismatch reported is a wrong amount |
| LoanUsecase.PayOpenFaultFree | internal/usecase/loan_usecase.go:187-206 | without faults an accepted payment settles its covered prefix and steps on |
| LoanUsecase.PayingQuoteSettles | internal/usecase/loan_usecase.go:173-207 | without faults, paying the quote of a loan with a current instalment succeeds and settles every quoted instalment |
| LoanUsecase.NextPaymentStepFaultFree | internal/usecase/loan_usecase.go:209-228 | without faults the step after a payment reports no error |
| LoanUsecase.NextPaymentStepMovesOn | internal/usecase/loan_usecase.go:209-228 | without faults, the loan closes when nothing is scheduled or outstanding, and otherwise its next payment is outstanding |
| LoanUsecase.AcceptedPaymentMovesOn | internal/usecase/loan_usecase.go:196-204 | without faults an accepted payment leaves the loan closed or with its next payment outstanding |
| LoanUsecase.ZeroPaymentClosesLoanInArrears | internal/usecase/loan_usecase.go:209-219 | a loan whose only open payment is pending quotes zero, accepts a zero payment and is closed with the payment still pending |
| LoanUsecase.SettledStepClosesPaidLoans | internal/usecase/loan_usecase.go:209-219 | the intended closing rule closes a loan exactly when all its payments are paid |
| Validators.ValidPercentage | pkg/validators.go:38-41 | a rate passes exactly when it lies between 0 and 100 inclusive; it is the precondition under which `Billing.TotalAmountBounds` bounds the total |
| Validators.AlphaSpaceAccepts | pkg/validators.go:44-48 | a name passes exactly when it is non-empty and every character is an ASCII letter or whitespace |
| Validators.MatchAlphaSpace | pkg/validators.go:44-48 | a matched name is non-empty and starts and ends with a letter or whitespace |
| Validators.Decimal | pkg/validators.go:34 | the rendering of a whole number is one or more digits |
| Validators.FormatFixed2 | pkg/validators.go:34 | the two-decimal rendering has at least four characters |
| Validators.MoneyAcceptsNonNegative | pkg/validators.go:31-35 | the money check accepts an amount exactly when it is not negative |
| Validators.MatchMoney | pkg/validators.go:31-35 | a matched money rendering is non-empty and starts and ends with a digit |

## Left out

- HTTP handlers, routes, request binding and error responses are not modelled. The field validators are modelled on their own, and no request struct refers to them.
- Transactions and rollback are not modelled. The model keeps writes made before a failure, as the code does without a transaction. With the transaction middleware, a failed request would roll back those writes.
- Logging is not modelled.
- Clocks and time zones are not modelled. The current day is a parameter, truncation to midnight is assumed, and creation timestamps are the given day.
- GORM internals are not modelled. Each repository call is a function of the tables, and any database failure is a refused call, which writes nothing.
- `SavePayments` is declared but has no implementation in the loan repository, so it is not part of this model's sources. It is assumed to insert the rows in order under the next ids.
- `GetLoanByID` is not modelled because no modelled operation calls it.
- Floating-point arithmetic is not modelled. Amounts are exact reals, the epsilon comparison is exact, and `FormatFixed2` rounds half away from zero.
- A zero-week term divides by zero in floating point in the source. There the instalment is `0.0` (`Instalment`), and the request ends with the index error before the instalment is observable.
- An auto-increment id for a customer created with id 0 is not modelled. Customers keep the id they are given.
- Concurrency between requests and the daily job is not modelled.
- Queries.Due: lists the query's rows in stored order. The query has no ORDER BY, so the order of the fetch is a parameter of `Repository.Store.GetPaymentsDue` and `PaymentUsecase.RunDaily`: any arrangement of these rows.
- Consistency.ReconcileKeepsConsistent: covers a run that writes rows back in stored order. A run stopped part-way through rows fetched in another order can break consistency (see "Findings").
- PaymentUsecase.RunDaily: promises consistency only for a complete run or a run over rows fetched in stored order, because a part-way run in another order can leave two outstanding rows in one loan (see "Findings").
- The preloaded loans and payment lists of a customer (internal/repository/customer_repository.go:48) have no ORDER BY either. The model takes them in stored order. That order decides which loan's conversion error `Repository.Store.GetCustomerByID` reports first, and whether the delinquency scan reaches two pending payments before an absent list.
- `Validators.ValidPercentage` is the range check itself and carries no contract of its own. It is the precondition on the rate in `Billing.TotalAmountBounds`; loan creation does not apply it, because no request struct is modelled.
- Enum.PaymentStatusString: a negative code is excluded by its precondition. In the source, a negative code indexes the name array out of range and panics.
- Enum.LoanStatusString: a negative code is excluded by its precondition, for the same reason.
- The Go loop variable in the classifying loops is taken with per-iteration semantics (Go 1.22), so the kept outstanding payment is the last one in the list.
- `LoanUsecase.GetTotalOutstanding` computes its result through the same classification as `LoanUsecase.QuoteOpen` and discards the date and week.
- `LoanUsecase.NextPaymentStep` models the closing rule as written. The corrected `LoanUsecase.SettledNextPaymentStep` is proved separately and is not what `LoanUsecase.MakePayment` runs.

## Findings

| source | as written | input that shows it | evidently intended | confidence | as-written member | corrected member |
|---|---|---|---|---|---|---|
| internal/usecase/loan_usecase.go:209-219 | after a payment the loan is closed as soon as no payment of it is scheduled or outstanding | a one-week loan after its due date: its only payment is pending, so the quote is 0, a payment of 0 is accepted, nothing is paid, and the loan is closed with the instalment still pending | a loan is closed only when none of its payments is scheduled, outstanding or pending, that is, when all are paid | high (not executed) | LoanUsecase.ZeroPaymentClosesLoanInArrears | LoanUsecase.SettledStepClosesPaidLoans |
| internal/repository/payment_repository.go:29-45 and internal/usecase/payment_usecase.go:42-58 | the daily job fetches the due rows with no ORDER BY and writes them back one at a time, outside a transaction, returning at the first failed write | one loan with week 1 outstanding (due day 3) and week 2 scheduled (due day 10), run on day 5; the database returns week 2 first and the write of week 1 fails: week 2 becomes outstanding while week 1 stays outstanding | fetch the rows in week order (or run the job in a transaction), so that a part-way run leaves every loan consistent | medium (not executed; depends on the order the database returns) | PaymentUsecase.UnorderedPartWayRunBreaksConsistency | PaymentUsecase.WrittenBackOutcome |
