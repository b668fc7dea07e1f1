/** Calendar months, the reference month and the ways a run can abort. */
module Domain {

  /** A first-of-month date, counted in months: year * 12 + (month - 1).
      Every date the pipeline builds or compares is a first-of-month date. */
  type Month = int

  function MonthIndex(year: int, month: int): Month
    requires 1 <= month <= 12
  {
    year * 12 + month - 1
  }

  /** The reference month every price is restated in: 2025-03-01. */
  const BaseMonth: Month := MonthIndex(2025, 3)

  /** The first and last first-of-month dates a nanosecond pandas Timestamp can
      hold (its range is 1677-09-21 to 2262-04-11). */
  const FirstTimestampMonth: Month := MonthIndex(1677, 10)
  const LastTimestampMonth: Month := MonthIndex(2262, 4)

  /** A calendar day, as the run's date stamp. */
  datatype Day = Day(year: int, month: int, day: int)

  /** Why a run stops with exit status 1. */
  datatype EtlError =
    | SheetUnreadable      // the spreadsheet stage raised (bad price text, bad date text, no dated row)
    | IndexRequestFailed   // the HTTP request for the index series failed
    | IndexPayloadInvalid  // the index payload could not be turned into a table of values
    | BaseMonthMissing     // the reference month is not in the monthly series
}
