/** The librarian's book-renewal form (`RenewBookForm` in
    locallibrary/catalog/forms.py): the window a proposed due-back date must
    fall in, and the two messages it is refused with. */
module Forms {
  import opened Dates

  /** Help text of the `renewal_date` field. */
  const RenewalHelpText: string := "Enter a date between now and 4 weeks (default 3)."

  /** A renewal may be at most `timedelta(weeks=4)` ahead of today. */
  const MaxRenewalDays: nat := Weeks(4)

  /** The date the help text advertises as the default: three weeks ahead. */
  const DefaultRenewalDays: nat := Weeks(3)

  const InPastMessage: string := "Invalid date - renewal in past"
  const TooFarAheadMessage: string := "Invalid date - renewal more than 4 weeks ahead"

  /** Why a proposed date was refused. */
  datatype RenewalError = InPast | TooFarAhead {
    /** The text of the `ValidationError` raised for this reason. */
    function Message(): string {
      match this
      case InPast => InPastMessage
      case TooFarAhead => TooFarAheadMessage
    }
  }

  /** Outcome of cleaning the field: the date to store, or the error. */
  datatype RenewalResult = Valid(date: Date) | Invalid(error: RenewalError)

  /** `clean_renewal_date` for a proposed date `data` on day `today`: the
      past check comes first, then the four-week bound, and an accepted date
      comes back untouched. */
  function CleanRenewalDate(data: Date, today: Date): (r: RenewalResult)
    ensures r.Valid? <==> today <= data <= today + MaxRenewalDays
    ensures r.Valid? ==> r.date == data
    ensures r == Invalid(InPast) <==> data < today
    ensures r == Invalid(TooFarAhead) <==> today + MaxRenewalDays < data
  {
    if data < today then Invalid(InPast)
    else if data > today + MaxRenewalDays then Invalid(TooFarAhead)
    else Valid(data)
  }

  /** Every date before today is refused as being in the past. */
  lemma PastDateRejected(data: Date, today: Date)
    requires data < today
    ensures CleanRenewalDate(data, today) == Invalid(InPast)
    ensures CleanRenewalDate(data, today).error.Message() == "Invalid date - renewal in past"
  {
  }

  /** Every date more than 28 days ahead is refused as too far ahead. */
  lemma FarDateRejected(data: Date, today: Date)
    requires today + 28 < data
    ensures CleanRenewalDate(data, today) == Invalid(TooFarAhead)
    ensures CleanRenewalDate(data, today).error.Message() == "Invalid date - renewal more than 4 weeks ahead"
  {
  }

  /** Both ends of the window are accepted: today and today + 28 days. */
  lemma WindowBoundsInclusive(today: Date)
    ensures CleanRenewalDate(today, today) == Valid(today)
    ensures CleanRenewalDate(today + 28, today) == Valid(today + 28)
    ensures CleanRenewalDate(today - 1, today) == Invalid(InPast)
    ensures CleanRenewalDate(today + 29, today) == Invalid(TooFarAhead)
  {
  }

  /** The two refusals are told apart by their messages, so a refused form
      carries exactly one reason. */
  lemma MessagesDistinct()
    ensures InPast.Message() != TooFarAhead.Message()
  {
  }

  /** Cleaning the cleaned value again, on the same day, gives the same
      accepted value. */
  lemma CleanIdempotent(data: Date, today: Date)
    requires CleanRenewalDate(data, today).Valid?
    ensures CleanRenewalDate(CleanRenewalDate(data, today).date, today) == CleanRenewalDate(data, today)
  {
  }

  /** The advertised default, three weeks ahead, lies inside the window. */
  lemma DefaultDateAccepted(today: Date)
    ensures CleanRenewalDate(today + DefaultRenewalDays, today) == Valid(today + 21)
  {
  }
}
