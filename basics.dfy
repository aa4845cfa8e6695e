/** An optional value: a nullable column or an absent result. */
module Wrappers {
  datatype Option<+T> = None | Some(value: T)
}

/** Calendar dates as whole day numbers, so that adding a `timedelta` of
    whole days or weeks is integer addition. */
module Dates {
  type Date = int

  const DaysPerWeek: nat := 7

  /** The length in days of `timedelta(weeks = n)`. */
  function Weeks(n: nat): nat {
    n * DaysPerWeek
  }
}
