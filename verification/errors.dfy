/** `ErrorCode` and the two kinds of exception the core raises. */
module Errors {

  /** The constants of `ErrorCode`, one constructor each (HTTP status and
      message text are not modelled). */
  datatype ErrorCode =
    | InvalidHolidayData      // INVALID_HOLIDAY_DATA
    | InvalidCountryCode      // INVALID_COUNTRY_CODE
    | InvalidYearRange        // INVALID_YEAR_RANGE
    | HolidayNotFound         // HOLIDAY_NOT_FOUND
    | ExternalApiTimeout      // EXTERNAL_API_TIMEOUT
    | HolidayBulkSaveFailed   // HOLIDAY_BULK_SAVE_FAILED
    | HolidayUpdateFailed     // HOLIDAY_UPDATE_FAILED
    | BulkInsertFailed        // BULK_INSERT_FAILED
    | CountryApiCallFailed    // COUNTRY_API_CALL_FAILED
    | HolidayApiCallFailed    // HOLIDAY_API_CALL_FAILED
    | HolidayDeleteFailed     // HOLIDAY_DELETE_FAILED

  /** Why an unchecked (non-business) exception was thrown. */
  datatype UncheckedReason =
    | DuplicateKey      // IllegalStateException from Collectors.toMap
    | DateOutOfRange    // DateTimeException from LocalDate.of
    | SourceFailure     // whatever the holiday client threw
    | WriteRejected     // a persistence exception from JPA save/saveAll
    | NullReference     // NullPointerException on a null list
    | NotFound          // EntityNotFoundException from a lookup by id

  /** An exception: a `BusinessException` carrying its code, or any other
      runtime exception. */
  datatype Fault = Business(code: ErrorCode) | Unchecked(reason: UncheckedReason)
}
