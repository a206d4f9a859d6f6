/** `HolidayBulkRepository.bulkInsert`: one JDBC batch of INSERTs inside a
    transaction, each row drawing its id from `holiday_seq`. */
module BulkRepository {
  import opened Wrappers
  import opened Entity
  import opened Errors
  import opened Store

  /** The row a batch INSERT writes for `h`: a null `fixed` or `global` is
      written as false, and both timestamps are the batch's single clock
      reading rather than the entity's own. */
  function BatchRow(h: Holiday, now: Timestamp): (b: Holiday)
    ensures b.countryCode == h.countryCode && b.countryName == h.countryName
    ensures b.date == h.date && b.localName == h.localName && b.name == h.name
    ensures b.launchYear == h.launchYear && b.types == h.types && b.counties == h.counties
    ensures b.fixed.Some? && b.global.Some?
    ensures h.fixed.Some? ==> b.fixed == h.fixed
    ensures h.global.Some? ==> b.global == h.global
    ensures h.fixed.None? ==> b.fixed == Some(false)
    ensures h.global.None? ==> b.global == Some(false)
    ensures b.createdAt == now && b.updatedAt == now
  {
    h.(fixed := Some(h.fixed.GetOr(false)), global := Some(h.global.GetOr(false)),
       createdAt := now, updatedAt := now)
  }

  function BatchRows(hs: seq<Holiday>, now: Timestamp): (r: seq<Holiday>)
    ensures |r| == |hs|
    ensures forall i :: 0 <= i < |hs| ==> r[i] == BatchRow(hs[i], now)
  {
    if |hs| == 0 then [] else [BatchRow(hs[0], now)] + BatchRows(hs[1..], now)
  }

  /** Every row of the batch satisfies the table's column constraints. */
  predicate AllAccepted(hs: seq<Holiday>) {
    forall i :: 0 <= i < |hs| ==> Accepts(hs[i])
  }

  /** `bulkInsert`: a null or empty list inserts nothing and returns 0.
      Otherwise either the whole batch is written (one new row per holiday,
      in list order, under fresh ids, the old rows untouched) and the result
      is the list's size, or, when the database rejects any row, nothing is
      written and `BULK_INSERT_FAILED` is raised. */
  function BulkInsert(db: Db, holidays: Option<seq<Holiday>>, now: Timestamp): (r: Result<(Db, int), Fault>)
    ensures (holidays == None || holidays == Some([])) ==> r == Success((db, 0))
    ensures r.Failure? <==> holidays.Some? && !AllAccepted(holidays.value)
    ensures r.Failure? ==> r.error == Business(BulkInsertFailed)
    ensures r.Success? && holidays.Some? ==>
      var (db', n) := r.value;
      && n == |holidays.value|
      && |db'.rows| == |db.rows| + n
      && db'.rows[..|db.rows|] == db.rows
      && (forall i :: 0 <= i < n ==> db'.rows[|db.rows| + i].holiday == BatchRow(holidays.value[i], now))
      && (Valid(db) ==> Valid(db'))
      && (forall i :: |db.rows| <= i < |db'.rows| ==> db'.rows[i].id >= db.nextId)
  {
    if holidays == None || holidays == Some([]) then Success((db, 0))
    else if !AllAccepted(holidays.value) then Failure(Business(BulkInsertFailed))
    else
      var hs := holidays.value;
      var db' := SaveAll(db, BatchRows(hs, now));
      Success((db', |hs|))
  }

  /** After a successful batch every inserted row can be read back by its
      id, with both flags set, and its id was not in use before. */
  lemma BulkInsertReadBack(db: Db, hs: seq<Holiday>, now: Timestamp, i: int)
    requires Valid(db) && 0 <= i < |hs|
    requires BulkInsert(db, Some(hs), now).Success?
    ensures var (db', _) := BulkInsert(db, Some(hs), now).value;
      var x := db'.rows[|db.rows| + i];
      && FindById(db', x.id) == Some(BatchRow(hs[i], now))
      && x.holiday.fixed.Some? && x.holiday.global.Some?
      && !HasId(db, x.id)
  {
    var (db', _) := BulkInsert(db, Some(hs), now).value;
    FindByIdOfRow(db', db'.rows[|db.rows| + i]);
  }
}
