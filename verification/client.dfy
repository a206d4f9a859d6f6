/** What the service layer sees of the remote holiday source.  The HTTP
    client itself (retries, timeouts, status handling) is outside the model:
    a call is a value handed in by the caller. */
module Client {
  import opened Entity

  /** The outcome of `getPublicHolidays(countryCode, year)`: a list
      (possibly empty), a null body, or an exception. */
  datatype Fetch =
    | Fetched(holidays: seq<HolidayDto>)
    | NoBody
    | CallFailed

  /** The remote source for the whole run: what each (country code, year)
      call returns. */
  type Source = (string, int) -> Fetch
}
