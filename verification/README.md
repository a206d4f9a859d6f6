# Holiday store: reconciliation, bulk load and yearly sync

This project is a Dafny model of the holiday service in
`planitsquare-assignment`, a Spring application. The application keeps
public holidays per country in a relational table. It fills the table in
a cold load over every country and every year in a configured range. Each
January it re-synchronises the previous and the current year. It also
answers filtered, sorted and paged searches.

The modelled core is made of these parts:

- **Dates** (`DateUtils`): the year and month ranges of `DateUtils`, with
  dates as (year, month, day) triples, lexicographic order and the
  proleptic Gregorian leap-year rule.
- **Java text semantics** (`JavaText`): `hasText`, `trim().isEmpty()`,
  case-insensitive comparison and string order.
- **The comma-list codec** (`StringArrayUtils`): `splitToList` and
  `joinFromList`. Java's `String.split` drops trailing empty fields, so
  their round trip holds only under conditions, which are proved exactly.
- **The entity** (`Entity`): the `Holiday` record, its constructor and
  `updateHoliday`.
- **The repositories** (`Store`, `BulkRepository`):
  - the JPA repository as a sequence of rows, each an id plus a record,
    with a next-id counter;
  - its derived queries;
  - the partition delete `deleteByCountryCodeAndYear`;
  - the JDBC batch insert.
- **The current service** (`Service`):
  - `saveAllHolidaysBulk` and `saveHolidayList`;
  - the date-keyed reconciliation of `updateHolidayDataInTransaction` and its
    error mapping in `updateHolidayList`;
  - `deleteHoliday`.
- **The legacy service** (`LegacyService`): the older copy of the service in
  the `serivce` package. It has a second, list-based reconciliation over a
  window hard-coded to 2024, its own list/string column codec, and a bulk
  save that reads the saved rows back.
- **Search** (`Search`): the `HolidaySearchCondition` validation bounds,
  the QueryDSL filter conjunction, the order selection, and the page and
  total of `HolidayRepositoryImpl`.
- **Ingestion drivers** (`CountryList`, `Initializers`, `Schedulers`), run
  in sequence:
  - the asynchronous and the synchronous cold loads;
  - the asynchronous and the synchronous yearly sync;
  - the code-to-name map that keeps the first name of a repeated code.

Outside calls become parameters:

- The remote holiday source is a function from (country code, year) to a
  `Fetch` outcome: a list, a null body, or a failed call.
- The country list is an `Option`, where `None` means the call failed.
- The clock is one `Timestamp` per operation.

A transaction is all-or-nothing: on any failure the store is returned
unchanged. A database write fails exactly when a row violates the
`country_code` column length of 2 (`entity/Holiday.java:24-25`).

Where the design description and the code differ, the model follows the
code:

- A repeated sync with unchanged data does not report zero updates. Both
  reconcilers count every fetched holiday whose date is already stored as
  an update, whether or not a field changed. The stored contents do reach
  a fixpoint, apart from `updatedAt` (`Entity.ApplyReflectedIsNoOp`).
- The legacy reconciler reads the 2024 window whatever year it syncs (see
  Findings).

## Model

| member | source | states |
|---|---|---|
| DateUtils.GetYearStartDate | src/main/java/com/planitsquare/assignment_jaehyuk/util/DateUtils.java:38-40 | January 1st is a valid date of the year and no valid date of that year precedes it |
| DateUtils.GetYearEndDate | src/main/java/com/planitsquare/assignment_jaehyuk/util/DateUtils.java:45-47 | December 31st is a valid date of the year and no valid date of that year follows it |
| DateUtils.OfYear | src/main/java/com/planitsquare/assignment_jaehyuk/util/DateUtils.java:18-23 | the year range is ordered, both ends lie in the year, and a valid date lies in it (ends included) exactly when its year is that year |
| DateUtils.GetYearRange | src/main/java/com/planitsquare/assignment_jaehyuk/util/DateUtils.java:52-54 | the range's ends are exactly the year's start and end dates, and membership is the same as year equality |
| DateUtils.OfMonth | src/main/java/com/planitsquare/assignment_jaehyuk/util/DateUtils.java:28-32 | for a month 1..12 the range starts on day 1 and is ordered; a valid date lies in it exactly when it has that year and month |
| DateUtils.OfMonthLength | src/main/java/com/planitsquare/assignment_jaehyuk/util/DateUtils.java:28-32 | the month range ends on day 31 for months 1, 3, 5, 7, 8, 10, 12, day 30 for 4, 6, 9, 11, and for February on day 29 exactly in leap years, otherwise day 28 |
| DateUtils.NotAfterTotalOrder | src/main/java/com/planitsquare/assignment_jaehyuk/util/DateUtils.java:18-32 | the date order the ranges rely on is reflexive, total, antisymmetric and transitive |
| JavaText.LowerEqualsUnique | src/main/java/com/planitsquare/assignment_jaehyuk/repository/HolidayRepositoryImpl.java:131-137 | a sort key lower-cases to at most one of the switch labels, so the switch picks at most one column |
| JavaText.StringLessEqTotal | src/main/java/com/planitsquare/assignment_jaehyuk/repository/HolidayRepositoryImpl.java:131-137 | the string order used for the name columns is total |
| JavaText.StringLessEqTransitive | src/main/java/com/planitsquare/assignment_jaehyuk/repository/HolidayRepositoryImpl.java:131-137 | the string order used for the name columns is transitive |
| JavaText.BlankTestsDiffer | src/main/java/com/planitsquare/assignment_jaehyuk/serivce/HolidayService.java:125-137 | the legacy blank test (trim then isEmpty) and Spring's hasText disagree both ways: on NUL and on the ideographic space |
| StringArrayUtils.Fields | src/main/java/com/planitsquare/assignment_jaehyuk/util/StringArrayUtils.java:11-14 | cutting at every comma gives at least one field |
| StringArrayUtils.SplitToList | src/main/java/com/planitsquare/assignment_jaehyuk/util/StringArrayUtils.java:11-14 | null or "" gives the empty list (never null); a comma-free non-empty string gives itself; no element contains a comma |
| StringArrayUtils.JoinFromList | src/main/java/com/planitsquare/assignment_jaehyuk/util/StringArrayUtils.java:16-19 | the result is null exactly for a null or empty list; otherwise cutting it at every comma gives the fields of each element in turn, so a list of comma-free elements comes back exactly |
| StringArrayUtils.FieldsOfSeparated | src/main/java/com/planitsquare/assignment_jaehyuk/util/StringArrayUtils.java:16-19 | cutting `a + "," + b` at every comma gives the fields of a followed by the fields of b, for any a and b |
| StringArrayUtils.FieldsOfJoinAll | src/main/java/com/planitsquare/assignment_jaehyuk/util/StringArrayUtils.java:16-19 | the fields of a join are the fields of its elements in turn, commas inside elements included |
| StringArrayUtils.FieldsOfJoin | src/main/java/com/planitsquare/assignment_jaehyuk/util/StringArrayUtils.java:11-19 | cutting a join of comma-free elements at every comma gives the elements back |
| StringArrayUtils.JoinOfFields | src/main/java/com/planitsquare/assignment_jaehyuk/util/StringArrayUtils.java:11-19 | joining the comma-cut fields of any string gives the string back |
| StringArrayUtils.FieldsCount | src/main/java/com/planitsquare/assignment_jaehyuk/util/StringArrayUtils.java:11-14 | a string has one field more than it has commas |
| StringArrayUtils.LastFieldNonEmpty | src/main/java/com/planitsquare/assignment_jaehyuk/util/StringArrayUtils.java:11-14 | a non-empty string not ending in a comma has a non-empty last field, so split drops nothing from it |
| StringArrayUtils.SplitJoinRoundTrip | src/main/java/com/planitsquare/assignment_jaehyuk/util/StringArrayUtils.java:11-19 | split(join(xs)) == xs for a non-empty list of comma-free elements whose last element is non-empty |
| StringArrayUtils.JoinSplitRoundTrip | src/main/java/com/planitsquare/assignment_jaehyuk/util/StringArrayUtils.java:11-19 | join(split(s)) == s for every non-empty s that does not end with a comma |
| StringArrayUtils.SplitCount | src/main/java/com/planitsquare/assignment_jaehyuk/util/StringArrayUtils.java:12-13 | for such an s the split has one element more than s has commas |
| StringArrayUtils.RoundTripCounterexamples | src/main/java/com/planitsquare/assignment_jaehyuk/util/StringArrayUtils.java:11-19 | without the conditions both round trips fail: a trailing empty element and a trailing comma are lost, and "," splits to nothing |
| Entity.NewHoliday | src/main/java/com/planitsquare/assignment_jaehyuk/entity/Holiday.java:61-77 | the new record carries the ten given business fields and both timestamps equal the clock reading |
| Entity.UpdateHoliday | src/main/java/com/planitsquare/assignment_jaehyuk/entity/Holiday.java:79-92 | the eight updatable fields take the arguments, code and name are kept, createdAt becomes the passed value and updatedAt the clock |
| Entity.ApplyDtoKeepsIdentity | src/main/java/com/planitsquare/assignment_jaehyuk/service/HolidayService.java:276-296 | an update from a fetched holiday keeps code, name and creation time, stamps updatedAt, and leaves the record reflecting the fetched content |
| Entity.FromDtoReflects | src/main/java/com/planitsquare/assignment_jaehyuk/service/HolidayService.java:129-142 | a record built from a fetched holiday reflects it and carries its code, the given name and the clock as creation time |
| Entity.ApplyReflectedIsNoOp | src/main/java/com/planitsquare/assignment_jaehyuk/entity/Holiday.java:79-92 | re-applying content a record already reflects changes nothing but updatedAt |
| Entity.ApplyDtoIdempotent | src/main/java/com/planitsquare/assignment_jaehyuk/entity/Holiday.java:79-92 | two updates with the same content equal one update at the later time |
| Store.FindById | src/main/java/com/planitsquare/assignment_jaehyuk/repository/HolidayRepository.java:13 | a record is found exactly when some row carries the id, and the found record is stored under it |
| Store.FindByIdOfRow | src/main/java/com/planitsquare/assignment_jaehyuk/repository/HolidayRepository.java:13 | in a consistent store the lookup of a row's id returns that row's record |
| Store.Save | src/main/java/com/planitsquare/assignment_jaehyuk/repository/HolidayRepository.java:13 | save stores the record under a fresh id, keeps every other lookup, adds exactly one row and keeps the store consistent |
| Store.SaveAll | src/main/java/com/planitsquare/assignment_jaehyuk/repository/HolidayRepository.java:13 | saveAll appends one row per record, in order, under consecutive fresh ids, keeps the old rows as a prefix and keeps the store consistent |
| Store.ReplaceById | src/main/java/com/planitsquare/assignment_jaehyuk/repository/HolidayRepository.java:13 | flushing a changed managed record replaces the record under its id and keeps every id and every row with another id |
| Store.DeleteAllByIdInBatch | src/main/java/com/planitsquare/assignment_jaehyuk/repository/HolidayRepository.java:13 | exactly the rows whose id is listed are removed; lookups of other ids are unchanged |
| Store.ExistsByCountryCodeAndDate | src/main/java/com/planitsquare/assignment_jaehyuk/repository/HolidayRepository.java:14 | true exactly when some stored record has that code and date |
| Store.FindByCountryCodeAndDateBetween | src/main/java/com/planitsquare/assignment_jaehyuk/repository/HolidayRepository.java:16 | exactly the stored records with that code whose date lies between the bounds, both ends included |
| Store.FindByCountryCodeAndCountryNameAndDateBetween | src/main/java/com/planitsquare/assignment_jaehyuk/repository/HolidayRepository.java:18 | as above, with the exact country name required as well |
| Store.DeleteByCountryCodeAndYear | src/main/java/com/planitsquare/assignment_jaehyuk/repository/HolidayRepositoryImpl.java:66-74 | exactly the records with that code dated January 1st to December 31st of the year are removed, every other record is kept, and the count returned is the number removed, which equals the size of the matching range query |
| BulkRepository.BatchRow | src/main/java/com/planitsquare/assignment_jaehyuk/repository/HolidayBulkRepository.java:40-53 | the inserted row copies every business field, stores a null fixed or global as false, and stamps both timestamps with the batch's single clock reading |
| BulkRepository.BatchRows | src/main/java/com/planitsquare/assignment_jaehyuk/repository/HolidayBulkRepository.java:34-61 | one batch row per input record, in order |
| BulkRepository.BulkInsert | src/main/java/com/planitsquare/assignment_jaehyuk/repository/HolidayBulkRepository.java:22-67 | null or empty input returns 0 and changes nothing; the batch fails with BULK_INSERT_FAILED exactly when a row violates the table; on success the rows are appended in order under fresh ids and the count is the input size |
| BulkRepository.BulkInsertReadBack | src/main/java/com/planitsquare/assignment_jaehyuk/repository/HolidayBulkRepository.java:34-61 | after a successful batch every inserted row can be read back by its id |
| Service.CountryNameFor | src/main/java/com/planitsquare/assignment_jaehyuk/service/HolidayService.java:75-79 | a mapped code gets the mapped name; an unmapped code gets the code followed by " (Unknown)" |
| Service.ConvertToEntityBulk | src/main/java/com/planitsquare/assignment_jaehyuk/service/HolidayService.java:70-93 | the entity reflects the fetched holiday and carries the country name chosen from the map |
| Service.ConvertAllBulk | src/main/java/com/planitsquare/assignment_jaehyuk/service/HolidayService.java:54-56 | one converted entity per input holiday, in order |
| Service.SaveAllHolidaysBulk | src/main/java/com/planitsquare/assignment_jaehyuk/service/HolidayService.java:42-68 | null or empty input returns [] and changes nothing; the save fails with HOLIDAY_BULK_SAVE_FAILED exactly when some code is too long; on success the input is returned unchanged and one reflecting row per holiday is appended |
| Service.BulkFailsOnLongCode | src/main/java/com/planitsquare/assignment_jaehyuk/service/HolidayService.java:58-67 | the batch insert is refused exactly when some holiday's code is longer than two characters |
| Service.BulkAcceptance | src/main/java/com/planitsquare/assignment_jaehyuk/service/HolidayService.java:54-58 | the converted batch is accepted exactly when every code fits the column |
| Service.NotYetStored | src/main/java/com/planitsquare/assignment_jaehyuk/service/HolidayService.java:104-107 | a holiday is kept exactly when it is listed and its (code, date) is not already stored |
| Service.NotYetStoredKeepsOrder | src/main/java/com/planitsquare/assignment_jaehyuk/service/HolidayService.java:104-107 | the filter keeps list order: filtering a concatenation gives the filtered parts concatenated |
| Service.NotYetStoredSingle | src/main/java/com/planitsquare/assignment_jaehyuk/service/HolidayService.java:104-107 | one holiday is kept exactly when its (code, date) is not stored |
| Service.NotYetStoredCounts | src/main/java/com/planitsquare/assignment_jaehyuk/service/HolidayService.java:104-107 | a holiday whose (code, date) is not stored is kept as many times as it is listed; a stored one is never kept |
| Service.ConvertAll | src/main/java/com/planitsquare/assignment_jaehyuk/service/HolidayService.java:129-142 | one entity per kept holiday, in order, each under the given country name |
| Service.ListAcceptance | src/main/java/com/planitsquare/assignment_jaehyuk/service/HolidayService.java:109-116 | the converted list is accepted exactly when every holiday's code fits the column |
| Service.SaveHolidayList | src/main/java/com/planitsquare/assignment_jaehyuk/service/HolidayService.java:95-120 | null input changes nothing; the save fails exactly when a kept holiday has too long a code, and the failure is an unchecked persistence exception; on success the old rows stay a prefix, followed in list order by one record per holiday whose (code, date) is not yet stored, built under the given name |
| Service.SaveHolidayListIsIdempotent | src/main/java/com/planitsquare/assignment_jaehyuk/service/HolidayService.java:95-127 | after a successful save every listed holiday is stored, and saving the same list again changes nothing |
| Service.SaveHolidayListKeepsListDuplicates | src/main/java/com/planitsquare/assignment_jaehyuk/service/HolidayService.java:121-127 | for any store and list, a holiday whose (code, date) is not stored yet is appended at least as many times as the list names it, since the duplicate check reads only the store |
| Service.DateIndex | src/main/java/com/planitsquare/assignment_jaehyuk/service/HolidayService.java:241-242 | keying the window by date succeeds exactly when no two records share a date, and then indexes every record under its own date |
| Service.Step | src/main/java/com/planitsquare/assignment_jaehyuk/service/HolidayService.java:247-260 | an indexed date is an in-place update that consumes its index entry and writes the old record updated from the fetched holiday under the same id, with no other id changed; an unindexed date leaves the index alone and writes the fetched holiday under the given name at the next id; a missing row raises HOLIDAY_NOT_FOUND, which cannot happen on a consistent store, and a rejected add raises HOLIDAY_BULK_SAVE_FAILED |
| Service.Reconcile | src/main/java/com/planitsquare/assignment_jaehyuk/service/HolidayService.java:247-260 | every fetched holiday is counted once as updated or added, updates equal the index entries consumed, unconsumed entries are unchanged, and consistency is kept |
| Service.ReconcileWritesFetched | src/main/java/com/planitsquare/assignment_jaehyuk/service/HolidayService.java:247-260 | on a consistent store whose index entries are stored, after a successful loop each index entry consumed by the first fetched holiday of its date holds its old record updated from that holiday under the same id; the fetched holidays that consumed no entry are stored in fetch order under the given name at the next ids; every other older id reads as before |
| Service.ReconcileConsumes | src/main/java/com/planitsquare/assignment_jaehyuk/service/HolidayService.java:247-256 | after a successful loop no fetched date is left in the index |
| Service.ReconcileKeepsUnfetched | src/main/java/com/planitsquare/assignment_jaehyuk/service/HolidayService.java:247-256 | every index entry whose date was not fetched survives the loop |
| Service.ReconcileFailureCause | src/main/java/com/planitsquare/assignment_jaehyuk/service/HolidayService.java:298-318 | on a consistent store the loop fails only when some fetched holiday has too long a code |
| Service.ReconcileKeepsUnindexed | src/main/java/com/planitsquare/assignment_jaehyuk/service/HolidayService.java:247-260 | the loop keeps every row whose id is not indexed |
| Service.ReconcileKeepsIds | src/main/java/com/planitsquare/assignment_jaehyuk/service/HolidayService.java:247-260 | the loop never loses a stored id |
| Service.Partition | src/main/java/com/planitsquare/assignment_jaehyuk/service/HolidayService.java:236-239 | the window is exactly the stored records with the form's code, the exact form name and a date in the form's year |
| Service.UpdateHolidayDataInTransaction | src/main/java/com/planitsquare/assignment_jaehyuk/service/HolidayService.java:234-274 | a bad year, duplicate window dates and a null list each fail before any write; on success added + updated = fetched and updated + deleted = window size; records outside the window are kept; every failure is HOLIDAY_NOT_FOUND, HOLIDAY_BULK_SAVE_FAILED or an unchecked exception, and HOLIDAY_NOT_FOUND never arises on a consistent store |
| Service.UpdateWritesFetched | src/main/java/com/planitsquare/assignment_jaehyuk/service/HolidayService.java:234-274 | after a successful sync of a consistent store, each window record whose date is fetched holds its old record updated from the first fetched holiday of that date, under the same id; the fetched holidays left unmatched are stored in fetch order under the form's name at the next ids |
| Service.DeleteKeepsWritten | src/main/java/com/planitsquare/assignment_jaehyuk/service/HolidayService.java:262-271 | deleting the unconsumed window records keeps every updated and every added record the loop wrote |
| Service.UpdateDeletesExactlyUnfetched | src/main/java/com/planitsquare/assignment_jaehyuk/service/HolidayService.java:262-271 | a window record survives a successful sync (under its id) exactly when some fetched holiday carries its date |
| Service.EmptyFetchClearsWindow | src/main/java/com/planitsquare/assignment_jaehyuk/service/HolidayService.java:247-273 | an empty fetched list deletes every window record, adds and updates nothing, and keeps every other record |
| Service.UpdateHolidayList | src/main/java/com/planitsquare/assignment_jaehyuk/service/HolidayService.java:207-232 | a failed call gives exactly HOLIDAY_API_CALL_FAILED; every failure is a business exception; a null body or bad year gives HOLIDAY_UPDATE_FAILED; success is exactly a fetched list whose reconciliation succeeds, with that outcome |
| Service.UpdateHolidayListKeepsOtherYears | src/main/java/com/planitsquare/assignment_jaehyuk/service/HolidayService.java:236-271 | a successful sync of one year keeps every stored record dated in another year |
| Service.AsBusiness | src/main/java/com/planitsquare/assignment_jaehyuk/service/HolidayService.java:217-222 | a business exception passes through unchanged and any other exception becomes HOLIDAY_UPDATE_FAILED |
| Service.DeleteHoliday | src/main/java/com/planitsquare/assignment_jaehyuk/service/HolidayService.java:326-342 | the code's records of the year are removed and no other record; removing none is a normal return; only a year outside the date range fails, as HOLIDAY_UPDATE_FAILED |
| LegacyService.ListToString | src/main/java/com/planitsquare/assignment_jaehyuk/serivce/HolidayService.java:111-123 | the legacy list encoder is the same as joinFromList: null for a null or empty list, otherwise a comma join |
| LegacyService.StringToList | src/main/java/com/planitsquare/assignment_jaehyuk/serivce/HolidayService.java:125-137 | a null or whitespace-only column decodes to [], any other to its comma split |
| LegacyService.BlankColumnDecodesDifferently | src/main/java/com/planitsquare/assignment_jaehyuk/serivce/HolidayService.java:125-137 | a blank column decodes to [] in the legacy codec but to [" "] in splitToList |
| LegacyService.ListCodecRoundTrip | src/main/java/com/planitsquare/assignment_jaehyuk/serivce/HolidayService.java:111-137 | encoding then decoding gives back a list of comma-free elements whose last element has a visible character |
| LegacyService.ConvertToEntityBulk | src/main/java/com/planitsquare/assignment_jaehyuk/serivce/HolidayService.java:68-91 | the legacy conversion builds the same entity as the current one |
| LegacyService.ConvertToDtoBulk | src/main/java/com/planitsquare/assignment_jaehyuk/serivce/HolidayService.java:93-109 | the read-back holiday copies the stored fields and decodes both list columns, so a null column reads back as [] |
| LegacyService.BulkDtoRoundTrip | src/main/java/com/planitsquare/assignment_jaehyuk/serivce/HolidayService.java:68-109 | storing a holiday and reading it back gives it again, with a null list turned into [], when its lists survive the column codec |
| LegacyService.ConvertAllToDto | src/main/java/com/planitsquare/assignment_jaehyuk/serivce/HolidayService.java:58-60 | one read-back holiday per saved record, in order |
| LegacyService.SaveAllHolidaysBulk | src/main/java/com/planitsquare/assignment_jaehyuk/serivce/HolidayService.java:40-66 | null or empty input returns [] and changes nothing; failure happens exactly when some code is too long and is an unchecked exception; on success one reflecting row per holiday is appended and the read-back rows are returned |
| LegacyService.SavedRowsReflect | src/main/java/com/planitsquare/assignment_jaehyuk/serivce/HolidayService.java:50-56 | the appended rows reflect the input holidays in order and carry the mapped names |
| LegacyService.BulkOutputRoundTrips | src/main/java/com/planitsquare/assignment_jaehyuk/serivce/HolidayService.java:50-60 | the returned list is the input with null lists turned into [], for holidays whose lists survive the codec |
| LegacyService.SaveHolidayList | src/main/java/com/planitsquare/assignment_jaehyuk/serivce/HolidayService.java:141-161 | the legacy save succeeds exactly when the current one does and then writes the same store; its failure is an unchecked persistence exception |
| LegacyService.DeleteHoliday | src/main/java/com/planitsquare/assignment_jaehyuk/serivce/HolidayService.java:308-312 | the legacy delete fails exactly on a year outside the date range, uncaught; otherwise it is the current delete |
| LegacyService.Doomed | src/main/java/com/planitsquare/assignment_jaehyuk/serivce/HolidayService.java:290-297 | exactly the window records whose date is not a fetched key, in stored order |
| LegacyService.DoomedIds | src/main/java/com/planitsquare/assignment_jaehyuk/serivce/HolidayService.java:290-297 | the ids to delete are exactly the ids of window records whose date was not fetched |
| LegacyService.LegacyLoop | src/main/java/com/planitsquare/assignment_jaehyuk/serivce/HolidayService.java:266-289 | every fetched holiday is counted once as updated or added, consistency is kept, and failure means some unmatched holiday has too long a code |
| LegacyService.LegacyLoopAddsAll | src/main/java/com/planitsquare/assignment_jaehyuk/serivce/HolidayService.java:266-289 | when no fetched date is in the window map, every fetched holiday is added and none updated |
| LegacyService.Window | src/main/java/com/planitsquare/assignment_jaehyuk/serivce/HolidayService.java:253-254 | the window is the records with the form's code and exact name dated in 2024, whatever the form's year |
| LegacyService.UpdateHolidayList | src/main/java/com/planitsquare/assignment_jaehyuk/serivce/HolidayService.java:251-306 | a failed call, duplicate dates on either side and a null body each fail before any write with an unchecked exception; on success added + updated = fetched, and every window record whose date was not fetched is gone |
| LegacyService.DeleteUnfetched | src/main/java/com/planitsquare/assignment_jaehyuk/serivce/HolidayService.java:290-303 | exactly the doomed records are removed; the count is their number; with none the store is untouched; on a consistent store a lookup of a doomed id finds nothing and every other lookup is unchanged |
| LegacyService.LoopsAgree | src/main/java/com/planitsquare/assignment_jaehyuk/serivce/HolidayService.java:266-289 | on one fetched list with distinct dates the legacy loop and the current loop write the same store and counts and fail together |
| LegacyService.DoomedAreRemaining | src/main/java/com/planitsquare/assignment_jaehyuk/serivce/HolidayService.java:290-303 | the legacy ids to delete are exactly, and as many as, the ids the current loop leaves unmatched |
| LegacyService.LegacyAgreesWithCurrent | src/main/java/com/planitsquare/assignment_jaehyuk/serivce/HolidayService.java:251-306 | with distinct fetched dates the legacy sync of any form equals the current reconciliation of the form's 2024 window: same success, store and counts |
| LegacyService.LegacyWritesFetched | src/main/java/com/planitsquare/assignment_jaehyuk/serivce/HolidayService.java:251-306 | after a successful legacy sync of a consistent store, each 2024 window record of a fetched date holds its old record updated from that holiday under the same id, and exactly the fetched holidays whose date is not in the window are stored, in fetch order, under the form's name at the next ids |
| LegacyService.UnmatchedOfDistinct | src/main/java/com/planitsquare/assignment_jaehyuk/serivce/HolidayService.java:266-289 | with distinct fetched dates the holidays the loop adds are exactly the fetched ones whose date has no window entry |
| LegacyService.LegacyAgreesIn2024 | src/main/java/com/planitsquare/assignment_jaehyuk/serivce/HolidayService.java:251-306 | for a 2024 form the legacy and the current updateHolidayList succeed together with the same store and counts |
| LegacyService.LegacyCountIdentities | src/main/java/com/planitsquare/assignment_jaehyuk/serivce/HolidayService.java:262-303 | on success added + updated = fetched and updated + deleted = window size |
| LegacyService.LegacySyncWipesWindow | src/main/java/com/planitsquare/assignment_jaehyuk/serivce/HolidayService.java:253-254 | syncing a year other than 2024 adds every fetched holiday, updates none and deletes every stored 2024 record of the code and name |
| Search.BuildSearchCondition | src/main/java/com/planitsquare/assignment_jaehyuk/repository/HolidayRepositoryImpl.java:76-87 | the builder conjoins at most six filters |
| Search.MatchesMeaning | src/main/java/com/planitsquare/assignment_jaehyuk/repository/HolidayRepositoryImpl.java:76-118 | a record matches exactly when each text filter with text is a substring match (a NULL local name never matches), each given date bounds inclusively, and each given flag or launch year is equal |
| Search.TextFilterHolds | src/main/java/com/planitsquare/assignment_jaehyuk/repository/HolidayRepositoryImpl.java:104-110 | a text filter constrains the record exactly when its criterion has text |
| Search.DateFilterHolds | src/main/java/com/planitsquare/assignment_jaehyuk/repository/HolidayRepositoryImpl.java:93-102 | both dates give an inclusive between, one date gives a one-sided bound, none gives no constraint |
| Search.BlankConditionMatchesAll | src/main/java/com/planitsquare/assignment_jaehyuk/repository/HolidayRepositoryImpl.java:76-87 | a condition whose filters are all null or blank matches every record |
| Search.InvertedRangeMatchesNothing | src/main/java/com/planitsquare/assignment_jaehyuk/repository/HolidayRepositoryImpl.java:93-102 | a start date after the end date matches no record |
| Search.InvertedRangeIsValid | src/main/java/com/planitsquare/assignment_jaehyuk/dto/request/HolidaySearchCondition.java:18-71 | any condition with a start date not after today and an end date before the start passes validation, because the two dates are not compared, and matches no record |
| Search.BuildOrderSpecifier | src/main/java/com/planitsquare/assignment_jaehyuk/repository/HolidayRepositoryImpl.java:124-138 | there is no specifier exactly when sortBy has no text |
| Search.EffectiveOrderMeaning | src/main/java/com/planitsquare/assignment_jaehyuk/repository/HolidayRepositoryImpl.java:124-138 | the key is a name column or the launch year exactly when sortBy lower-cases to it; descending exactly when the key is known and the direction equals "desc" ignoring case, or the key falls back to date |
| Search.OrderIsCaseInsensitive | src/main/java/com/planitsquare/assignment_jaehyuk/repository/HolidayRepositoryImpl.java:128-133 | two sort keys equal ignoring case, whose directions both equal "desc" ignoring case or both do not, select the same order |
| Search.MissingDirectionIsAscending | src/main/java/com/planitsquare/assignment_jaehyuk/repository/HolidayRepositoryImpl.java:128-133 | any known key with no direction sorts ascending |
| Search.UnknownKeyFallsBack | src/main/java/com/planitsquare/assignment_jaehyuk/repository/HolidayRepositoryImpl.java:136 | any sort key with text that names no known column sorts by date descending, whatever the direction |
| Search.PrecedesTotal | src/main/java/com/planitsquare/assignment_jaehyuk/repository/HolidayRepositoryImpl.java:124-138 | every selectable order is total |
| Search.PrecedesTransitive | src/main/java/com/planitsquare/assignment_jaehyuk/repository/HolidayRepositoryImpl.java:124-138 | every selectable order is transitive |
| Search.Insert | src/main/java/com/planitsquare/assignment_jaehyuk/repository/HolidayRepositoryImpl.java:49 | inserting into a sorted list keeps it sorted and adds exactly the one row |
| Search.SortRows | src/main/java/com/planitsquare/assignment_jaehyuk/repository/HolidayRepositoryImpl.java:49 | the ORDER BY result is sorted and a permutation of its input |
| Search.PageOf | src/main/java/com/planitsquare/assignment_jaehyuk/repository/HolidayRepositoryImpl.java:50-51 | OFFSET then LIMIT: the elements from the offset on, at most size of them, fewer only at the end |
| Search.PagesTile | src/main/java/com/planitsquare/assignment_jaehyuk/repository/HolidayRepositoryImpl.java:50-51 | two adjacent pages together are the page of their combined size |
| Search.Matching | src/main/java/com/planitsquare/assignment_jaehyuk/repository/HolidayRepositoryImpl.java:46-48 | exactly the stored rows that pass the WHERE clause |
| Search.Ordered | src/main/java/com/planitsquare/assignment_jaehyuk/repository/HolidayRepositoryImpl.java:46-49 | the matching rows, sorted in the effective order |
| Search.PageRows | src/main/java/com/planitsquare/assignment_jaehyuk/repository/HolidayRepositoryImpl.java:46-51 | the page starts at the offset: row i of the page is row offset + i of the sorted matches; at most size rows, exactly size when enough match, none past the end; every row is stored, matches and the page is in order |
| Search.SearchWithCondition | src/main/java/com/planitsquare/assignment_jaehyuk/repository/HolidayRepositoryImpl.java:29-63 | the total is the number of matching records, independent of paging; content i is the response for sorted match offset + i, and there are as many as the page length |
| Search.SearchByCountryAndYear | src/main/java/com/planitsquare/assignment_jaehyuk/service/HolidayService.java:151-170 | fails exactly on a year outside the date range; otherwise the total counts the code's records of the year and content i is the response for the (offset + i)-th of them in stored order |
| Search.SearchHolidayDetail | src/main/java/com/planitsquare/assignment_jaehyuk/service/HolidayService.java:185-205 | an unknown id fails with the not-found exception; otherwise the stored record with both list columns split |
| Search.DetailShowsFetchedLists | src/main/java/com/planitsquare/assignment_jaehyuk/service/HolidayService.java:185-205 | a record stored from a fetched holiday shows the fetched lists again when their elements are comma-free and the last is non-empty |
| CountryList.CountriesOrEmpty | src/main/java/com/planitsquare/assignment_jaehyuk/initializer/HolidayDataInitializerAsync.java:105-112 | a failed country call reads as the empty list |
| CountryList.FirstNameMeaning | src/main/java/com/planitsquare/assignment_jaehyuk/initializer/HolidayDataInitializerAsync.java:93-99 | a code has a name exactly when some country lists it, and the name is that of the earliest such country |
| CountryList.CountryNameMap | src/main/java/com/planitsquare/assignment_jaehyuk/scheduler/YearlyDataSyncSchedulerAsync.java:164-170 | the map's keys are exactly the listed codes and each maps to the first listed name for it |
| CountryList.CountryNameMapCovers | src/main/java/com/planitsquare/assignment_jaehyuk/initializer/HolidayDataInitializerAsync.java:93-99 | every listed code is a key, and a code listed once maps to its own country's name |
| Initializers.YearsClosed | src/main/java/com/planitsquare/assignment_jaehyuk/initializer/HolidayDataInitializer.java:95 | the closed year range in ascending order, empty when the end precedes the start |
| Initializers.PairsMeaning | src/main/java/com/planitsquare/assignment_jaehyuk/initializer/HolidayDataInitializerAsync.java:133-136 | a country is called once per year, in year order |
| Initializers.GridSize | src/main/java/com/planitsquare/assignment_jaehyuk/initializer/HolidayDataInitializerAsync.java:117-118 | countries × years calls are made |
| Initializers.GridSound | src/main/java/com/planitsquare/assignment_jaehyuk/initializer/HolidayDataInitializerAsync.java:117-136 | every call pairs a listed code with a listed year |
| Initializers.GridComplete | src/main/java/com/planitsquare/assignment_jaehyuk/initializer/HolidayDataInitializerAsync.java:117-136 | every listed country is called for every listed year |
| Initializers.AllHolidaysMeaning | src/main/java/com/planitsquare/assignment_jaehyuk/initializer/HolidayDataInitializerAsync.java:119-141 | a holiday is collected exactly when some successful grid call returned it; a failed call contributes nothing |
| Initializers.CountryHolidaysMeaning | src/main/java/com/planitsquare/assignment_jaehyuk/initializer/HolidayDataInitializer.java:95-111 | a holiday is in a country's list exactly when one of its successful years returned it |
| Initializers.CollectCountry | src/main/java/com/planitsquare/assignment_jaehyuk/initializer/HolidayDataInitializer.java:95-111 | the loop fetches the years in ascending order and concatenates the successful results |
| Initializers.CollectAllHolidays | src/main/java/com/planitsquare/assignment_jaehyuk/initializer/HolidayDataInitializerAsync.java:114-128 | the loop makes exactly the grid of calls and collects every country's holidays in country order |
| Initializers.InitializeAsync | src/main/java/com/planitsquare/assignment_jaehyuk/initializer/HolidayDataInitializerAsync.java:44-91 | no countries gives 0 with no call; a negative year count aborts before any call; otherwise the grid is called, nothing collected gives 0 with no save, and otherwise the bulk save with the first-name map decides the store and the total |
| Initializers.SaveEachKeepsRows | src/main/java/com/planitsquare/assignment_jaehyuk/initializer/HolidayDataInitializer.java:75-121 | the per-country saves never lose a stored row and keep the store consistent, whichever of them fail |
| Initializers.InitializeSync | src/main/java/com/planitsquare/assignment_jaehyuk/initializer/HolidayDataInitializer.java:65-121 | one save per country in list order, with the country's own name and its year-ordered successful results; a failed save leaves the store as it was and the run goes on; no countries means no save |
| Schedulers.RunFormsKeepsOtherYears | src/main/java/com/planitsquare/assignment_jaehyuk/scheduler/YearlyDataSyncSchedulerAsync.java:130-153 | a run of sync calls keeps the store consistent and never touches a record dated in a year none of its calls targets |
| Schedulers.CountBothAll | src/main/java/com/planitsquare/assignment_jaehyuk/scheduler/YearlyDataSyncSchedulerAsync.java:98-122 | every country counts as successful exactly when every call succeeded |
| Schedulers.Plan | src/main/java/com/planitsquare/assignment_jaehyuk/scheduler/YearlyDataSyncSchedulerAsync.java:94-111 | two calls per country, so n countries give 2n calls |
| Schedulers.PlanMeaning | src/main/java/com/planitsquare/assignment_jaehyuk/scheduler/YearlyDataSyncSchedulerAsync.java:106-111 | country i's calls are the previous year and then the current year, with its code and the chosen name |
| Schedulers.AsyncName | src/main/java/com/planitsquare/assignment_jaehyuk/scheduler/YearlyDataSyncSchedulerAsync.java:134-137 | the name sent for a country is the first listed name of its code |
| Schedulers.RunPlan | src/main/java/com/planitsquare/assignment_jaehyuk/scheduler/YearlyDataSyncSchedulerAsync.java:94-122 | the loop makes the planned calls in order, each on the store the previous one left, and counts the countries whose two calls both succeeded, at most the number of countries |
| Schedulers.SyncAsync | src/main/java/com/planitsquare/assignment_jaehyuk/scheduler/YearlyDataSyncSchedulerAsync.java:40-104 | the calls are the previous and current year per country with the first-name map's name; the result counts fully successful countries, at most their number; no countries gives 0 and no call |
| Schedulers.SyncSync | src/main/java/com/planitsquare/assignment_jaehyuk/scheduler/YearlyDataSyncScheduler.java:61-114 | for each country in order, the start year then the end year with the country's own name; a failing call is skipped; no countries means no call |
| Schedulers.SchedulersAgree | src/main/java/com/planitsquare/assignment_jaehyuk/scheduler/YearlyDataSyncScheduler.java:91-98 | when no code repeats, both schedulers send the same names and leave the same store |
| Schedulers.RepeatedCodeTakesFirstName | src/main/java/com/planitsquare/assignment_jaehyuk/scheduler/YearlyDataSyncSchedulerAsync.java:164-170 | with a repeated code the asynchronous job sends the first country's name twice while the synchronous one sends each country's own name |

## Left out

- HTTP clients: the Nager.Date clients (WebClient, retries, timeouts, `block()`) are not part of this model. Each call is a `Fetch` value, or an `Option` for the country list, handed in by the caller.
- Client: how the clients map a 404 or another status to an outcome is not modelled. A call yields a list (possibly empty), a null body or a failure, and the model does not say which status gives which.
- Concurrency: the Reactor pipelines (`flatMap` caps, `boundedElastic`, the overwritten `maxConcurrentCountries`) run in sequence in the model. The asynchronous collectors gather results in completion order, which the model fixes as list order. The collected multiset and the count are the same in any order. The store is the same only up to the order of the new rows and the id each receives. New ids come from the sequence in insertion order, so another completion order gives the same holidays other ids and another row order.
- Initializers.InitializeAsync: `Flux.range` is given the `int` count `endYear - startYear + 1`. The model does not wrap it at 32 bits: it aborts only when the unbounded count is negative.
- Clock: every operation reads the clock once (`now`). The entity constructor, which reads it twice, gets one value for both timestamps.
- Transactions: `@Transactional` is idealised as all-or-nothing. The read-only class default and Spring's self-invocation rule are not modelled. The current service calls `updateHolidayDataInTransaction` from inside the same bean without a transaction of its own.
- Database failures: a write fails only on the `country_code` length constraint. Other constraint, connection and lock failures are not modelled.
- Nulls: the country name, code, record name and date are taken as non-null. Only the nullable fields, the input lists and a fetched body are `Option`s.
- Logging, StopWatch timing, `Thread.sleep` throttling, the `@Scheduled` cron wiring and `manualSyncTrigger`: not modelled; they do not affect stored state.
- Search: ties in ORDER BY are not fixed by SQL. The model uses a stable insertion sort, and its contract states only sortedness and permutation. The QueryDSL construction is modelled by its meaning only.
- Repeated syncs: whether a second run with unchanged data reports no changes is not stated. The code counts every matched date as an update; only the content fixpoint is proved (`Entity.ApplyReflectedIsNoOp`).
- Search.SearchByCountryAndYear: a sort carried by the request's `Pageable` is not modelled; the page is cut from the rows in stored order.
- Legacy search: the legacy service's `searchHolidayList`, `searchHolidayListWithSearchCondition` and `searchHolidayDetail` run the same repository queries as the current ones, so `Search` covers both.
- Search.EffectiveOrderMeaning / Search.MatchesMeaning: the sources do not name a database, so three behaviours are fixed by the model and depend on the database in practice. The name columns sort in code-point order, which the table's collation may change. A NULL launch year sorts lowest, which is the database's NULL ordering. The text filters are case-sensitive substring matches, as SQL `LIKE` is only under a case-sensitive collation.
- Service.SaveHolidayList: `Holiday` takes its id from a sequence, so `saveAll` does not insert at once. A too-long code is rejected when the transaction flushes at commit, after the `try` that would map it to HOLIDAY_BULK_SAVE_FAILED. The model reports that failure as an unchecked persistence exception and leaves the store unchanged.
- Service.Step: the add branch's `save` has the same deferred insert. The model keeps the HOLIDAY_BULK_SAVE_FAILED tag of the `catch` at `service/HolidayService.java:298-318`. In the code the rejection surfaces at the next flush: the batch delete's or the commit's. The model does not follow which tag the caller then sees.
- LegacyService.LegacyLoop: its own contract states counts, consistency and the failure cause. The rows it writes are stated through `LegacyService.LoopsAgree`, which equates it with the current loop, and through `Service.ReconcileWritesFetched` and `LegacyService.LegacyWritesFetched`.
- Controller, configuration, error responses and HTTP status mapping: not part of this model. Error codes are tags only.
- Form annotations: the not-blank and not-null annotations of the update and delete forms are not checked. The model accepts any form and handles the year range explicitly.

## Findings

| source | as written | input that shows it | evidently intended | confidence | as-written member | corrected member |
|---|---|---|---|---|---|---|
| src/main/java/com/planitsquare/assignment_jaehyuk/serivce/HolidayService.java:253-254 | the legacy `updateHolidayList` reads the stored window of 2024 whatever year the form names, then deletes every window record whose date was not fetched | a store holding KR's 2024 holidays under the form's name, a form for KR 2025, and the fetched 2025 list: every 2025 holiday is added and every stored 2024 record is deleted | the window is the form's year, as in the current `updateHolidayDataInTransaction`, so a sync of one year never touches another year's records | high; not executed | LegacyService.LegacySyncWipesWindow | Service.UpdateHolidayListKeepsOtherYears |
