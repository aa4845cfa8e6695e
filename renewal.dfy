/** How the renewal form and a copy's overdue flag fit together. */
module Renewal {
  import opened Wrappers
  import opened Dates
  import Forms
  import opened Models

  /** Storing a freshly accepted renewal date as the due-back date leaves the
      copy not overdue that day and every day up to the new due date, and
      overdue from the day after it. */
  lemma AcceptedRenewalNotOverdue(copy: BookInstance, data: Date, today: Date)
    requires Forms.CleanRenewalDate(data, today).Valid?
    ensures var renewed := copy.(dueBack := Some(Forms.CleanRenewalDate(data, today).date));
      && !IsOverdue(renewed, today)
      && (forall day :: day <= data ==> !IsOverdue(renewed, day))
      && IsOverdue(renewed, data + 1)
  {
  }
}
