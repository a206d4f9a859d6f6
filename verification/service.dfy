/** `service.HolidayService`: the bulk cold load, the per-country save, the
    per-(country, year) reconciliation with the remote source, and the
    partition delete.

    Every operation takes the store and returns the new store or a `Fault`;
    a failed transactional operation leaves the store as it was, so a
    failure carries no store. */
module Service {
  import opened Wrappers
  import opened DateUtils
  import opened Entity
  import opened Errors
  import opened Store
  import opened BulkRepository
  import opened Client

  datatype UpdateForm = UpdateForm(countryCode: string, countryName: string, year: int)
  datatype DeleteForm = DeleteForm(countryCode: string, countryName: string, year: int)

  /** `HolidayUpdateResult`. */
  datatype UpdateResult = UpdateResult(updatedCount: int, addedCount: int, deletedCount: int)

  // ---------------------------------------------------------------------
  // saveAllHolidaysBulk

  /** The country name a bulk-loaded holiday is stored under: the name
      mapped to its code, or the code followed by " (Unknown)". */
  function CountryNameFor(names: map<string, string>, code: string): (n: string)
    ensures code in names ==> n == names[code]
    ensures code !in names ==> n == code + " (Unknown)" && |n| == |code| + 10
  {
    if code in names then names[code] else code + " (Unknown)"
  }

  /** `convertToEntityBulk`. */
  function ConvertToEntityBulk(dto: HolidayDto, names: map<string, string>, now: Timestamp): (h: Holiday)
    ensures Reflects(h, dto) && h.countryCode == dto.countryCode
    ensures h.countryName == CountryNameFor(names, dto.countryCode)
  {
    FromDto(dto, CountryNameFor(names, dto.countryCode), now)
  }

  function ConvertAllBulk(dtos: seq<HolidayDto>, names: map<string, string>, now: Timestamp): (hs: seq<Holiday>)
    ensures |hs| == |dtos|
    ensures forall i :: 0 <= i < |dtos| ==> hs[i] == ConvertToEntityBulk(dtos[i], names, now)
  {
    seq(|dtos|, i requires 0 <= i < |dtos| => ConvertToEntityBulk(dtos[i], names, now))
  }

  /** `saveAllHolidaysBulk`: a null or empty list saves nothing and returns
      the empty list.  Otherwise one batch inserts a row for every holiday,
      in order, and the input list is returned; if the batch fails nothing
      is stored and `HOLIDAY_BULK_SAVE_FAILED` is raised. */
  function SaveAllHolidaysBulk(db: Db, dtos: Option<seq<HolidayDto>>, names: map<string, string>,
                               now: Timestamp): (r: Result<(Db, seq<HolidayDto>), Fault>)
    ensures (dtos == None || dtos == Some([])) ==> r == Success((db, []))
    ensures r.Failure? <==> dtos.Some? && exists i :: 0 <= i < |dtos.value| && |dtos.value[i].countryCode| > 2
    ensures r.Failure? ==> r.error == Business(HolidayBulkSaveFailed)
    ensures r.Success? && dtos.Some? ==>
      var (db', out) := r.value;
      && out == dtos.value
      && |db'.rows| == |db.rows| + |out|
      && db'.rows[..|db.rows|] == db.rows
      && BatchReflects(db, db', out, names, now)
      && (Valid(db) ==> Valid(db'))
  {
    if dtos == None || dtos == Some([]) then Success((db, []))
    else
      var hs := ConvertAllBulk(dtos.value, names, now);
      BulkFailsOnLongCode(db, dtos.value, names, now);
      match BulkInsert(db, Some(hs), now)
      case Failure(_) => Failure(Business(HolidayBulkSaveFailed))
      case Success((db', _)) =>
        BulkRowsReflect(db, db', dtos.value, names, now);
        Success((db', dtos.value))
  }

  /** The batch is refused exactly when some holiday's country code is too
      long for its column. */
  lemma BulkFailsOnLongCode(db: Db, dtos: seq<HolidayDto>, names: map<string, string>, now: Timestamp)
    ensures BulkInsert(db, Some(ConvertAllBulk(dtos, names, now)), now).Failure?
        <==> exists i :: 0 <= i < |dtos| && |dtos[i].countryCode| > 2
  {
    BulkAcceptance(dtos, names, now);
  }

  /** The fetched holiday with a null `fixed` or `global` read as false,
      as the batch INSERT writes it. */
  function WithDefaultFlags(dto: HolidayDto): HolidayDto {
    dto.(fixed := Some(dto.fixed.GetOr(false)), global := Some(dto.global.GetOr(false)))
  }

  lemma BulkAcceptance(dtos: seq<HolidayDto>, names: map<string, string>, now: Timestamp)
    ensures AllAccepted(ConvertAllBulk(dtos, names, now))
        <==> !exists i :: 0 <= i < |dtos| && |dtos[i].countryCode| > 2
  {
    var hs := ConvertAllBulk(dtos, names, now);
    if !AllAccepted(hs) {
      var i :| 0 <= i < |hs| && !Accepts(hs[i]);
      assert |dtos[i].countryCode| > 2;
    }
  }

  lemma BulkRowsReflect(db: Db, db': Db, dtos: seq<HolidayDto>, names: map<string, string>, now: Timestamp)
    requires |db'.rows| == |db.rows| + |dtos|
    requires forall i :: 0 <= i < |dtos| ==>
      db'.rows[|db.rows| + i].holiday == BatchRow(ConvertAllBulk(dtos, names, now)[i], now)
    ensures BatchReflects(db, db', dtos, names, now)
  {
    forall i | 0 <= i < |dtos|
      ensures Reflects(db'.rows[|db.rows| + i].holiday, WithDefaultFlags(dtos[i]))
      ensures db'.rows[|db.rows| + i].holiday.countryName == CountryNameFor(names, dtos[i].countryCode)
      ensures db'.rows[|db.rows| + i].holiday.createdAt == now
    {
      assert ConvertAllBulk(dtos, names, now)[i] == ConvertToEntityBulk(dtos[i], names, now);
      BatchRowOfDto(dtos[i], names, now);
    }
  }

  /** The rows appended after the first `|db.rows|` carry, in order, the
      content of `dtos` with null flags read as false, the country name
      looked up for each code, and the batch's clock reading. */
  predicate BatchReflects(db: Db, db': Db, dtos: seq<HolidayDto>, names: map<string, string>, now: Timestamp)
    requires |db'.rows| == |db.rows| + |dtos|
  {
    forall i :: 0 <= i < |dtos| ==>
      && Reflects(db'.rows[|db.rows| + i].holiday, WithDefaultFlags(dtos[i]))
      && db'.rows[|db.rows| + i].holiday.countryName == CountryNameFor(names, dtos[i].countryCode)
      && db'.rows[|db.rows| + i].holiday.createdAt == now
  }

  lemma BatchRowOfDto(dto: HolidayDto, names: map<string, string>, now: Timestamp)
    ensures var b := BatchRow(ConvertToEntityBulk(dto, names, now), now);
      && Reflects(b, WithDefaultFlags(dto))
      && b.countryName == CountryNameFor(names, dto.countryCode)
      && b.createdAt == now
  {
  }

  // ---------------------------------------------------------------------
  // saveHolidayList

  /** The holidays `saveHolidayList` keeps: those whose (code, date) is not
      stored yet, judged against the store as it was before the call, each
      as often as it is listed. */
  function NotYetStored(db: Db, dtos: seq<HolidayDto>): (r: seq<HolidayDto>)
    ensures |r| <= |dtos|
    ensures forall d :: d in r <==> d in dtos && !ExistsByCountryCodeAndDate(db, d.countryCode, d.date)
  {
    if |dtos| == 0 then []
    else
      var rest := NotYetStored(db, dtos[1..]);
      assert dtos == [dtos[0]] + dtos[1..];
      if ExistsByCountryCodeAndDate(db, dtos[0].countryCode, dtos[0].date) then rest
      else [dtos[0]] + rest
  }

  /** The filter keeps every listing of a holiday it keeps: a holiday not
      stored yet appears as often as in the list, a stored one not at all. */
  lemma {:induction false} NotYetStoredCounts(db: Db, dtos: seq<HolidayDto>, d: HolidayDto)
    ensures multiset(NotYetStored(db, dtos))[d]
         == if ExistsByCountryCodeAndDate(db, d.countryCode, d.date) then 0 else multiset(dtos)[d]
  {
    if |dtos| > 0 {
      NotYetStoredCounts(db, dtos[1..], d);
      NotYetStoredUnfold(db, dtos);
      CountCons(dtos, d);
      var r := NotYetStored(db, dtos);
      if |r| > 0 && r[0] == dtos[0] {
        CountCons(r, d);
        assert r[1..] == NotYetStored(db, dtos[1..]);
      }
    }
  }

  /** The filter keeps list order: filtering a concatenation concatenates
      the filtered parts. */
  lemma {:induction false} NotYetStoredKeepsOrder(db: Db, a: seq<HolidayDto>, b: seq<HolidayDto>)
    ensures NotYetStored(db, a + b) == NotYetStored(db, a) + NotYetStored(db, b)
    decreases |a|
  {
    if |a| == 0 {
      assert a + b == b;
    } else {
      NotYetStoredKeepsOrder(db, a[1..], b);
      KeepsOrderStep(db, a, b);
    }
  }

  /** The inductive step of `NotYetStoredKeepsOrder`. */
  lemma KeepsOrderStep(db: Db, a: seq<HolidayDto>, b: seq<HolidayDto>)
    requires |a| > 0
    requires NotYetStored(db, a[1..] + b) == NotYetStored(db, a[1..]) + NotYetStored(db, b)
    ensures NotYetStored(db, a + b) == NotYetStored(db, a) + NotYetStored(db, b)
  {
    var c := a + b;
    ConcatTail(a, b);
    NotYetStoredUnfold(db, c);
    NotYetStoredUnfold(db, a);
  }

  /** One unfolding of the filter on a non-empty list. */
  lemma NotYetStoredUnfold(db: Db, s: seq<HolidayDto>)
    requires |s| > 0
    ensures NotYetStored(db, s)
         == (if ExistsByCountryCodeAndDate(db, s[0].countryCode, s[0].date) then [] else [s[0]]) + NotYetStored(db, s[1..])
  {
  }

  /** Dropping the head of a concatenation drops the head of its first part. */
  lemma ConcatTail<T>(a: seq<T>, b: seq<T>)
    requires |a| > 0
    ensures (a + b)[0] == a[0] && (a + b)[1..] == a[1..] + b
  {
  }

  /** A single holiday is kept exactly when its (code, date) is not stored;
      with `NotYetStoredKeepsOrder` this fixes the filter on every list. */
  lemma NotYetStoredSingle(db: Db, d: HolidayDto)
    ensures NotYetStored(db, [d]) == if ExistsByCountryCodeAndDate(db, d.countryCode, d.date) then [] else [d]
  {
    assert [d][1..] == [];
  }

  function ConvertAll(dtos: seq<HolidayDto>, countryName: string, now: Timestamp): (hs: seq<Holiday>)
    ensures |hs| == |dtos|
    ensures forall i :: 0 <= i < |dtos| ==> hs[i] == FromDto(dtos[i], countryName, now)
  {
    seq(|dtos|, i requires 0 <= i < |dtos| => FromDto(dtos[i], countryName, now))
  }

  /** The converted list is accepted exactly when every holiday's country
      code fits its column. */
  lemma ListAcceptance(dtos: seq<HolidayDto>, countryName: string, now: Timestamp)
    ensures AllAccepted(ConvertAll(dtos, countryName, now)) <==> forall d :: d in dtos ==> |d.countryCode| <= 2
  {
    var hs := ConvertAll(dtos, countryName, now);
    if AllAccepted(hs) {
      forall d | d in dtos ensures |d.countryCode| <= 2 {
        var i :| 0 <= i < |dtos| && dtos[i] == d;
        assert Accepts(hs[i]);
      }
    }
  }

  /** `saveHolidayList`: saves, under the given country name, every listed
      holiday whose (code, date) the store does not hold yet, in list order;
      a null or empty list, or one whose holidays are all stored, changes
      nothing.  The ids come from a sequence, so `saveAll` only queues the
      INSERTs: a row the table refuses fails at the commit, after the
      method's `catch` is left, with the persistence exception itself, and
      nothing is stored. */
  function SaveHolidayList(db: Db, countryName: string, dtos: Option<seq<HolidayDto>>, now: Timestamp): (r: Result<Db, Fault>)
    ensures dtos == None ==> r == Success(db)
    ensures r.Failure? <==> dtos.Some? && exists d :: d in NotYetStored(db, dtos.value) && |d.countryCode| > 2
    ensures r.Failure? ==> r.error == Unchecked(WriteRejected)
    ensures r.Success? && dtos.Some? ==>
      var unseen := NotYetStored(db, dtos.value);
      && |r.value.rows| == |db.rows| + |unseen|
      && r.value.rows[..|db.rows|] == db.rows
      && (forall i :: 0 <= i < |unseen| ==> r.value.rows[|db.rows| + i].holiday == FromDto(unseen[i], countryName, now))
      && (Valid(db) ==> Valid(r.value))
  {
    if dtos == None || dtos == Some([]) then Success(db)
    else
      var unseen := NotYetStored(db, dtos.value);
      var hs := ConvertAll(unseen, countryName, now);
      if |hs| == 0 then Success(db)
      else
        ListAcceptance(unseen, countryName, now);
        if !AllAccepted(hs) then Failure(Unchecked(WriteRejected))
        else
          Success(SaveAll(db, hs))
  }

  /** After a successful `saveHolidayList` every listed holiday is stored
      by (code, date), so calling it again with the same list changes
      nothing. */
  lemma SaveHolidayListIsIdempotent(db: Db, countryName: string, dtos: seq<HolidayDto>, now: Timestamp, later: Timestamp)
    requires SaveHolidayList(db, countryName, Some(dtos), now).Success?
    ensures var db' := SaveHolidayList(db, countryName, Some(dtos), now).value;
      && (forall d :: d in dtos ==> ExistsByCountryCodeAndDate(db', d.countryCode, d.date))
      && SaveHolidayList(db', countryName, Some(dtos), later) == Success(db')
  {
    var db' := SaveHolidayList(db, countryName, Some(dtos), now).value;
    var unseen := NotYetStored(db, dtos);
    forall d | d in dtos ensures ExistsByCountryCodeAndDate(db', d.countryCode, d.date) {
      if ExistsByCountryCodeAndDate(db, d.countryCode, d.date) {
        var x :| x in db.rows && x.holiday.countryCode == d.countryCode && x.holiday.date == d.date;
        var k :| 0 <= k < |db.rows| && db.rows[k] == x;
        assert db'.rows[..|db.rows|][k] == x;
        assert db'.rows[k] == x;
      } else {
        assert d in unseen;
        var i :| 0 <= i < |unseen| && unseen[i] == d;
        assert db'.rows[|db.rows| + i] in db'.rows;
      }
    }
    assert NotYetStored(db', dtos) == [] by {
      if |NotYetStored(db', dtos)| > 0 {
        assert NotYetStored(db', dtos)[0] in NotYetStored(db', dtos);
      }
    }
  }

  /** The holidays of the rows from position `n` on. */
  function HolidaysFrom(rows: seq<Row>, n: nat): (hs: seq<Holiday>)
    requires n <= |rows|
    ensures |hs| == |rows| - n
    ensures forall i :: 0 <= i < |hs| ==> hs[i] == rows[n + i].holiday
  {
    seq(|rows| - n, i requires 0 <= i < |rows| - n => rows[n + i].holiday)
  }

  /** The duplicate check looks only at the store, not at the list: a
      (code, date) the store does not hold yet, listed k times, is saved
      k times, once per listing. */
  lemma SaveHolidayListKeepsListDuplicates(db: Db, countryName: string, dtos: seq<HolidayDto>, now: Timestamp,
                                           dto: HolidayDto)
    requires SaveHolidayList(db, countryName, Some(dtos), now).Success?
    requires !ExistsByCountryCodeAndDate(db, dto.countryCode, dto.date)
    ensures var db' := SaveHolidayList(db, countryName, Some(dtos), now).value;
      multiset(HolidaysFrom(db'.rows, |db.rows|))[FromDto(dto, countryName, now)] >= multiset(dtos)[dto]
  {
    var db' := SaveHolidayList(db, countryName, Some(dtos), now).value;
    var unseen := NotYetStored(db, dtos);
    var added := HolidaysFrom(db'.rows, |db.rows|);
    assert added == ConvertAll(unseen, countryName, now);
    ConvertAllCounts(unseen, countryName, now, dto);
    NotYetStoredCounts(db, dtos, dto);
  }

  /** Converting a list converts each listing of a holiday. */
  lemma {:induction false} ConvertAllCounts(dtos: seq<HolidayDto>, countryName: string, now: Timestamp, dto: HolidayDto)
    ensures multiset(ConvertAll(dtos, countryName, now))[FromDto(dto, countryName, now)] >= multiset(dtos)[dto]
  {
    if |dtos| > 0 {
      ConvertAllCounts(dtos[1..], countryName, now, dto);
      var hs, tail := ConvertAll(dtos, countryName, now), ConvertAll(dtos[1..], countryName, now);
      assert hs[1..] == tail;
      CountCons(dtos, dto);
      CountCons(hs, FromDto(dto, countryName, now));
    }
  }

  /** The count of a value in a non-empty list: its head, then its tail. */
  lemma CountCons<T>(s: seq<T>, x: T)
    requires |s| > 0
    ensures multiset(s)[x] == (if s[0] == x then 1 else 0) + multiset(s[1..])[x]
  {
    assert s == [s[0]] + s[1..];
  }

  // ---------------------------------------------------------------------
  // updateHolidayDataInTransaction

  /** No two rows share a date. */
  predicate DistinctDates(rows: seq<Row>) {
    forall i, j :: 0 <= i < j < |rows| ==> rows[i].holiday.date != rows[j].holiday.date
  }

  /** `Collectors.toMap(Holiday::getDate, identity())`: the rows keyed by
      date, or nothing when two rows share a date (the collector throws). */
  function DateIndex(rows: seq<Row>): (r: Option<map<Date, Row>>)
    ensures r.Some? <==> DistinctDates(rows)
    ensures r.Some? ==> |r.value| == |rows|
    ensures r.Some? ==> IndexOf(r.value, rows)
  {
    if |rows| == 0 then Some(map[])
    else
      var rest := DateIndex(rows[1..]);
      var d := rows[0].holiday.date;
      if rest.None? || d in rest.value then
        DateIndexFails(rows, rest);
        None
      else
        DateIndexExtends(rows, rest.value);
        Some(rest.value[d := rows[0]])
  }

  /** `m` indexes exactly the rows of `rows` by date. */
  predicate IndexOf(m: map<Date, Row>, rows: seq<Row>) {
    && (forall d :: d in m ==> m[d] in rows && m[d].holiday.date == d)
    && (forall x :: x in rows ==> x.holiday.date in m && m[x.holiday.date] == x)
  }

  lemma DateIndexFails(rows: seq<Row>, rest: Option<map<Date, Row>>)
    requires |rows| > 0
    requires rest.Some? <==> DistinctDates(rows[1..])
    requires rest.Some? ==> IndexOf(rest.value, rows[1..])
    requires rest.None? || rows[0].holiday.date in rest.value
    ensures !DistinctDates(rows)
  {
    if rest.None? {
      var i, j :| 0 <= i < j < |rows[1..]| && rows[1..][i].holiday.date == rows[1..][j].holiday.date;
      assert rows[i + 1].holiday.date == rows[j + 1].holiday.date;
    } else {
      var x := rest.value[rows[0].holiday.date];
      var j :| 0 <= j < |rows[1..]| && rows[1..][j] == x;
      assert rows[j + 1].holiday.date == rows[0].holiday.date;
    }
  }

  lemma DateIndexExtends(rows: seq<Row>, m: map<Date, Row>)
    requires |rows| > 0 && DistinctDates(rows[1..])
    requires |m| == |rows| - 1 && IndexOf(m, rows[1..])
    requires rows[0].holiday.date !in m
    ensures DistinctDates(rows)
    ensures |m[rows[0].holiday.date := rows[0]]| == |rows|
    ensures IndexOf(m[rows[0].holiday.date := rows[0]], rows)
  {
    forall i, j | 0 <= i < j < |rows| ensures rows[i].holiday.date != rows[j].holiday.date {
      if i == 0 {
        assert rows[j] in rows[1..];
      } else {
        assert rows[1..][i - 1] == rows[i] && rows[1..][j - 1] == rows[j];
      }
    }
    var m' := m[rows[0].holiday.date := rows[0]];
    forall x | x in rows ensures x.holiday.date in m' && m'[x.holiday.date] == x {
      if x != rows[0] {
        var k :| 0 <= k < |rows| && rows[k] == x;
        assert x in rows[1..] by { assert rows[1..][k - 1] == x; }
      }
    }
    forall d | d in m' ensures m'[d] in rows && m'[d].holiday.date == d {
      if d != rows[0].holiday.date {
        assert m[d] in rows[1..];
      }
    }
  }

  /** The ids of the rows a date index holds. */
  function IdsOf(m: map<Date, Row>): set<int> {
    set d | d in m :: m[d].id
  }

  /** Every indexed row is still stored under its id. */
  predicate IndexPresent(db: Db, m: map<Date, Row>) {
    forall d :: d in m ==> HasId(db, m[d].id)
  }

  /** The state of the reconciliation loop: the store, the index entries
      not matched yet, and the two counters. */
  datatype LoopState = LoopState(db: Db, remaining: map<Date, Row>, updated: int, added: int)

  lemma MapRemoveSize(m: map<Date, Row>, k: Date)
    ensures k in m ==> |m - {k}| == |m| - 1
  {
    assert (m - {k}).Keys == m.Keys - {k};
  }

  lemma HasIdGrows(db: Db, db': Db, k: int)
    requires HasId(db, k) && forall x :: x in db.rows ==> x in db'.rows
    ensures HasId(db', k)
  {
    var x :| x in db.rows && x.id == k;
    assert x in db'.rows;
  }

  /** The dates of a fetched list, the key set `toMap` would build. */
  function FetchedDates(latest: seq<HolidayDto>): set<Date> {
    set dto | dto in latest :: dto.date
  }

  datatype StepKind = Updated | Added

  /** Every index entry is a stored row, filed under its own date. */
  predicate IndexStored(db: Db, m: map<Date, Row>) {
    forall d :: d in m ==> m[d] in db.rows && m[d].holiday.date == d
  }

  /** On a valid store, index entries of different dates are different
      rows, so they carry different ids. */
  lemma IndexIdsDistinct(db: Db, m: map<Date, Row>, d: Date, e: Date)
    requires Valid(db) && IndexStored(db, m) && d in m && e in m && d != e
    ensures m[d].id != m[e].id
  {
    if m[d].id == m[e].id {
      RowsDeterminedById(db, m[d], m[e]);
    }
  }

  /** One pass of the loop body for `dto`: if its date is still indexed,
      the stored row of that date gets the fetched content in place (keeping
      its code, name and creation time) and the date is consumed; otherwise
      a new row is saved under `countryName`.  A row missing from the store
      raises `HOLIDAY_NOT_FOUND`; a rejected save raises
      `HOLIDAY_BULK_SAVE_FAILED`. */
  function Step(db: Db, remaining: map<Date, Row>, dto: HolidayDto, countryName: string,
                now: Timestamp): (r: Result<(Db, map<Date, Row>, StepKind), Fault>)
    ensures r.Success? ==> dto.date !in r.value.1
    ensures r.Success? && r.value.2 == Updated ==>
      dto.date in remaining && r.value.1 == remaining - {dto.date}
    ensures r.Success? && r.value.2 == Added ==> dto.date !in remaining && r.value.1 == remaining
    ensures r.Success? && Valid(db) ==> Valid(r.value.0)
    ensures r.Success? && IndexPresent(db, remaining) ==> IndexPresent(r.value.0, r.value.1)
    ensures r.Success? && Valid(db) && IndexStored(db, remaining) ==> IndexStored(r.value.0, r.value.1)
    ensures r.Success? && r.value.2 == Updated && Valid(db) && IndexStored(db, remaining) ==>
      var x := remaining[dto.date];
      && FindById(r.value.0, x.id) == Some(ApplyDto(x.holiday, dto, now))
      && (forall k :: k != x.id ==> FindById(r.value.0, k) == FindById(db, k))
      && r.value.0.nextId == db.nextId
    ensures r.Success? && r.value.2 == Added ==>
      && (Valid(db) ==> FindById(r.value.0, db.nextId) == Some(FromDto(dto, countryName, now)))
      && (forall k :: k != db.nextId ==> FindById(r.value.0, k) == FindById(db, k))
      && r.value.0.nextId == db.nextId + 1
    ensures r.Failure? ==> r.error == Business(HolidayNotFound) || r.error == Business(HolidayBulkSaveFailed)
    ensures r.Failure? && Valid(db) && IndexPresent(db, remaining) ==>
      r.error == Business(HolidayBulkSaveFailed) && |dto.countryCode| > 2
  {
    if dto.date in remaining then
      var id := remaining[dto.date].id;
      match FindById(db, id)
      case None => Failure(Business(HolidayNotFound))
      case Some(h) =>
        var db1 := ReplaceById(db, id, ApplyDto(h, dto, now));
        var rem1 := remaining - {dto.date};
        assert IndexPresent(db, remaining) ==> IndexPresent(db1, rem1);
        UpdateStepStored(db, remaining, dto, h, now);
        Success((db1, rem1, Updated))
    else
      var h := FromDto(dto, countryName, now);
      if !Accepts(h) then Failure(Business(HolidayBulkSaveFailed))
      else
        var (db1, _) := Save(db, h);
        assert IndexPresent(db, remaining) ==> IndexPresent(db1, remaining) by {
          if IndexPresent(db, remaining) {
            forall d | d in remaining ensures HasId(db1, remaining[d].id) {
              HasIdGrows(db, db1, remaining[d].id);
            }
          }
        }
        assert Valid(db) && IndexStored(db, remaining) ==> IndexStored(db1, remaining);
        Success((db1, remaining, Added))
  }

  /** The update step on a valid store whose index entries are stored: the
      record found is the indexed one, and the other entries stay stored. */
  lemma UpdateStepStored(db: Db, remaining: map<Date, Row>, dto: HolidayDto, h: Holiday, now: Timestamp)
    requires dto.date in remaining && FindById(db, remaining[dto.date].id) == Some(h)
    ensures Valid(db) && IndexStored(db, remaining) ==>
      var x := remaining[dto.date];
      var db1 := ReplaceById(db, x.id, ApplyDto(h, dto, now));
      && h == x.holiday
      && IndexStored(db1, remaining - {dto.date})
  {
    var x := remaining[dto.date];
    if Valid(db) && IndexStored(db, remaining) {
      FindByIdOfRow(db, x);
      var db1 := ReplaceById(db, x.id, ApplyDto(h, dto, now));
      forall e | e in remaining - {dto.date} ensures remaining[e] in db1.rows {
        IndexIdsDistinct(db, remaining, e, dto.date);
      }
    }
  }

  /** `latest[i]` is the first fetched holiday of its date. */
  predicate FirstOfDate(latest: seq<HolidayDto>, i: int)
    requires 0 <= i < |latest|
  {
    forall j :: 0 <= j < i ==> latest[j].date != latest[i].date
  }

  /** The fetched holidays the current loop adds, in fetch order: a holiday
      whose date still has an unconsumed entry among `keys` consumes it,
      every other one is added. */
  function Unmatched(keys: set<Date>, latest: seq<HolidayDto>): seq<HolidayDto>
    decreases |latest|
  {
    if |latest| == 0 then []
    else if latest[0].date in keys then Unmatched(keys - {latest[0].date}, latest[1..])
    else [latest[0]] + Unmatched(keys, latest[1..])
  }

  /** The ids of the index entries whose date some fetched holiday carries. */
  function MatchedIds(m: map<Date, Row>, latest: seq<HolidayDto>): set<int> {
    set d | d in m && d in FetchedDates(latest) :: m[d].id
  }

  /** The holidays `adds`, in order and under `countryName`, are stored
      under the ids from `base` on. */
  predicate AddsWritten(s: Db, base: int, adds: seq<HolidayDto>, countryName: string, now: Timestamp) {
    forall j :: 0 <= j < |adds| ==> FindById(s, base + j) == Some(FromDto(adds[j], countryName, now))
  }

  /** The record of every indexed date some fetched holiday carries holds
      the first fetched holiday of that date applied to it. */
  predicate MatchedWritten(s: Db, m: map<Date, Row>, latest: seq<HolidayDto>, now: Timestamp) {
    forall i :: 0 <= i < |latest| && latest[i].date in m && FirstOfDate(latest, i) ==>
      FindById(s, m[latest[i].date].id) == Some(ApplyDto(m[latest[i].date].holiday, latest[i], now))
  }

  /** What a successful loop started on `db` and `remaining` wrote, read
      back by id: the record of every matched date holds the first fetched
      holiday of that date applied to it; the added holidays are stored, in
      fetch order and under the given name, under the next sequence values;
      every other record reads as before. */
  ghost predicate WrittenAsFetched(db: Db, remaining: map<Date, Row>, latest: seq<HolidayDto>,
                             countryName: string, now: Timestamp, st: LoopState)
  {
    var adds := Unmatched(remaining.Keys, latest);
    && |adds| == st.added
    && st.db.nextId == db.nextId + st.added
    && AddsWritten(st.db, db.nextId, adds, countryName, now)
    && (forall i :: 0 <= i < |latest| && latest[i].date in remaining && FirstOfDate(latest, i) ==>
          FindById(st.db, remaining[latest[i].date].id)
          == Some(ApplyDto(remaining[latest[i].date].holiday, latest[i], now)))
    && (forall k :: k < db.nextId && k !in MatchedIds(remaining, latest) ==> FindById(st.db, k) == FindById(db, k))
  }

  /** The loop over the fetched holidays, one `Step` each.  Each fetched
      holiday is counted once, as an update or as an add, and every update
      consumes one index entry. */
  function Reconcile(db: Db, remaining: map<Date, Row>, latest: seq<HolidayDto>,
                     countryName: string, now: Timestamp): (r: Result<LoopState, Fault>)
    ensures r.Success? ==> r.value.updated + r.value.added == |latest|
    ensures r.Success? ==> r.value.updated >= 0 && r.value.added >= 0
    ensures r.Success? ==> r.value.remaining.Keys <= remaining.Keys
    ensures r.Success? ==> forall d :: d in r.value.remaining ==> r.value.remaining[d] == remaining[d]
    ensures r.Success? ==> r.value.updated == |remaining| - |r.value.remaining|
    ensures r.Success? && Valid(db) ==> Valid(r.value.db)
    ensures r.Success? && IndexPresent(db, remaining) ==> IndexPresent(r.value.db, r.value.remaining)
    ensures r.Failure? ==> r.error == Business(HolidayNotFound) || r.error == Business(HolidayBulkSaveFailed)
    ensures r.Failure? && Valid(db) && IndexPresent(db, remaining) ==> r.error == Business(HolidayBulkSaveFailed)
    decreases |latest|
  {
    if |latest| == 0 then Success(LoopState(db, remaining, 0, 0))
    else
      match Step(db, remaining, latest[0], countryName, now)
      case Failure(e) => Failure(e)
      case Success((db1, rem1, kind)) =>
        MapRemoveSize(remaining, latest[0].date);
        var rest := Reconcile(db1, rem1, latest[1..], countryName, now);
        assert forall i :: 1 <= i < |latest| ==> latest[i] == latest[1..][i - 1];
        Tally(rest, kind)
  }

  /** On a valid store whose index entries are stored, what a successful
      loop writes is `WrittenAsFetched`. */
  lemma {:induction false} ReconcileWritesFetched(db: Db, remaining: map<Date, Row>, latest: seq<HolidayDto>,
                                                  countryName: string, now: Timestamp)
    requires Valid(db) && IndexStored(db, remaining)
    requires Reconcile(db, remaining, latest, countryName, now).Success?
    ensures WrittenAsFetched(db, remaining, latest, countryName, now, Reconcile(db, remaining, latest, countryName, now).value)
    decreases |latest|
  {
    if |latest| > 0 {
      ReconcileUnfold(db, remaining, latest, countryName, now);
      var (db1, rem1, kind) := Step(db, remaining, latest[0], countryName, now).value;
      ReconcileWritesFetched(db1, rem1, latest[1..], countryName, now);
      WrittenStep(db, remaining, latest, countryName, now, db1, rem1, kind,
                  Reconcile(db1, rem1, latest[1..], countryName, now).value);
    }
  }

  /** The loop's written content, one step at a time: the step's own write
      in front of what the rest of the loop wrote. */
  lemma {:induction false} WrittenStep(db: Db, remaining: map<Date, Row>, latest: seq<HolidayDto>, countryName: string,
                    now: Timestamp, db1: Db, rem1: map<Date, Row>, kind: StepKind, rest: LoopState)
    requires |latest| > 0 && Valid(db) && IndexStored(db, remaining)
    requires Step(db, remaining, latest[0], countryName, now) == Success((db1, rem1, kind))
    requires WrittenAsFetched(db1, rem1, latest[1..], countryName, now, rest)
    ensures WrittenAsFetched(db, remaining, latest, countryName, now, Tally(Success(rest), kind).value)
  {
    var st := Tally(Success(rest), kind).value;
    WrittenStepAdds(db, remaining, latest, countryName, now, db1, rem1, kind, rest);
    WrittenStepMatched(db, remaining, latest, countryName, now, db1, rem1, kind, rest);
    WrittenStepOthers(db, remaining, latest, countryName, now, db1, rem1, kind, rest);
  }

  /** Every index id is below the sequence value. */
  lemma IndexIdsBelow(db: Db, m: map<Date, Row>)
    requires Valid(db) && IndexStored(db, m)
    ensures forall d :: d in m ==> m[d].id < db.nextId
  {
    forall d | d in m ensures m[d].id < db.nextId {
      var i :| 0 <= i < |db.rows| && db.rows[i] == m[d];
    }
  }

  /** The matched ids of a sub-index over the rest of the list are matched
      ids of the whole. */
  lemma MatchedIdsShrink(m: map<Date, Row>, m1: map<Date, Row>, latest: seq<HolidayDto>)
    requires |latest| > 0
    requires forall d :: d in m1 ==> d in m && m1[d] == m[d]
    ensures MatchedIds(m1, latest[1..]) <= MatchedIds(m, latest)
  {
    FetchedDatesCons(latest);
  }

  /** The adds of one step in front of the rest's: an added holiday takes
      the sequence value the rest started from. */
  lemma {:induction false} WrittenStepAdds(db: Db, remaining: map<Date, Row>, latest: seq<HolidayDto>, countryName: string,
                        now: Timestamp, db1: Db, rem1: map<Date, Row>, kind: StepKind, rest: LoopState)
    requires |latest| > 0 && Valid(db) && IndexStored(db, remaining)
    requires Step(db, remaining, latest[0], countryName, now) == Success((db1, rem1, kind))
    requires WrittenAsFetched(db1, rem1, latest[1..], countryName, now, rest)
    ensures var st := Tally(Success(rest), kind).value;
      var adds := Unmatched(remaining.Keys, latest);
      && |adds| == st.added
      && st.db.nextId == db.nextId + st.added
      && AddsWritten(st.db, db.nextId, adds, countryName, now)
  {
    var st := Tally(Success(rest), kind).value;
    assert st.db == rest.db;
    if kind == Updated {
      assert st.added == rest.added;
      AddsAfterUpdated(db, remaining, latest, countryName, now, db1, rest, st);
    } else {
      assert st.added == rest.added + 1;
      AddedHeadKept(db, remaining, latest[1..], countryName, now, db1, rest, FromDto(latest[0], countryName, now));
      AddsAfterAdded(remaining, latest, countryName, now, db.nextId, db1.nextId, rest, st);
    }
  }

  /** The adds after a step that updated the record of `latest[0]`'s date:
      the same as the rest's. */
  lemma {:induction false} AddsAfterUpdated(db: Db, remaining: map<Date, Row>, latest: seq<HolidayDto>, countryName: string,
                                            now: Timestamp, db1: Db, rest: LoopState, st: LoopState)
    requires |latest| > 0 && latest[0].date in remaining && db1.nextId == db.nextId
    requires st.db == rest.db && st.added == rest.added
    requires WrittenAsFetched(db1, remaining - {latest[0].date}, latest[1..], countryName, now, rest)
    ensures var adds := Unmatched(remaining.Keys, latest);
      && |adds| == st.added
      && st.db.nextId == db.nextId + st.added
      && AddsWritten(st.db, db.nextId, adds, countryName, now)
  {
    assert (remaining - {latest[0].date}).Keys == remaining.Keys - {latest[0].date};
  }

  /** The adds after a step that added `latest[0]` under `base`: that one
      in front of the rest's, which start one further on. */
  lemma {:induction false} AddsAfterAdded(remaining: map<Date, Row>, latest: seq<HolidayDto>, countryName: string,
                                          now: Timestamp, base: int, next: int, rest: LoopState, st: LoopState)
    requires |latest| > 0 && latest[0].date !in remaining && next == base + 1
    requires st.db == rest.db && st.added == rest.added + 1
    requires FindById(rest.db, base) == Some(FromDto(latest[0], countryName, now))
    requires var tailAdds := Unmatched(remaining.Keys, latest[1..]);
      && |tailAdds| == rest.added
      && rest.db.nextId == next + rest.added
      && AddsWritten(rest.db, next, tailAdds, countryName, now)
    ensures var adds := Unmatched(remaining.Keys, latest);
      && |adds| == st.added
      && st.db.nextId == base + st.added
      && AddsWritten(st.db, base, adds, countryName, now)
  {
    var tailAdds := Unmatched(remaining.Keys, latest[1..]);
    var adds := Unmatched(remaining.Keys, latest);
    assert adds == [latest[0]] + tailAdds by {
      assert latest[0].date !in remaining.Keys;
    }
    ShiftAdds(st.db, base, latest[0], tailAdds, adds, countryName, now);
  }

  /** The row a step added is not touched by the rest of the loop, whose
      matched ids are all below the step's sequence value. */
  lemma {:induction false} AddedHeadKept(db: Db, remaining: map<Date, Row>, tail: seq<HolidayDto>, countryName: string,
                      now: Timestamp, db1: Db, rest: LoopState, h: Holiday)
    requires Valid(db) && IndexStored(db, remaining)
    requires FindById(db1, db.nextId) == Some(h) && db1.nextId == db.nextId + 1
    requires forall k :: k < db1.nextId && k !in MatchedIds(remaining, tail) ==> FindById(rest.db, k) == FindById(db1, k)
    ensures FindById(rest.db, db.nextId) == Some(h)
  {
    IndexIdsBelow(db, remaining);
  }

  /** Adds stored from `base + 1` on, with one more stored at `base`, are
      stored from `base` on. */
  lemma {:induction false} ShiftAdds(s: Db, base: int, first: HolidayDto, tailAdds: seq<HolidayDto>,
                                     adds: seq<HolidayDto>, countryName: string, now: Timestamp)
    requires adds == [first] + tailAdds
    requires FindById(s, base) == Some(FromDto(first, countryName, now))
    requires AddsWritten(s, base + 1, tailAdds, countryName, now)
    ensures AddsWritten(s, base, adds, countryName, now)
  {
    forall j | 0 <= j < |adds|
      ensures FindById(s, base + j) == Some(FromDto(adds[j], countryName, now))
    {
      if j > 0 {
        assert adds[j] == tailAdds[j - 1];
        assert base + j == base + 1 + (j - 1);
      }
    }
  }

  /** The matched records after a step and the rest of the loop. */
  lemma {:induction false} WrittenStepMatched(db: Db, remaining: map<Date, Row>, latest: seq<HolidayDto>, countryName: string,
                           now: Timestamp, db1: Db, rem1: map<Date, Row>, kind: StepKind, rest: LoopState)
    requires |latest| > 0 && Valid(db) && IndexStored(db, remaining)
    requires Step(db, remaining, latest[0], countryName, now) == Success((db1, rem1, kind))
    requires WrittenAsFetched(db1, rem1, latest[1..], countryName, now, rest)
    ensures forall i :: 0 <= i < |latest| && latest[i].date in remaining && FirstOfDate(latest, i) ==>
      FindById(rest.db, remaining[latest[i].date].id) == Some(ApplyDto(remaining[latest[i].date].holiday, latest[i], now))
  {
    var d0 := latest[0].date;
    if d0 in remaining {
      var x := remaining[d0];
      UpdatedHeadKept(db, remaining, d0, latest[1..], db1, rem1, rest);
    }
    MatchedTail(remaining, latest, rem1, rest, now);
  }

  /** The record a step updated is not touched by the rest of the loop: the
      rest's index no longer holds its date, and no other date files its
      id. */
  lemma {:induction false} UpdatedHeadKept(db: Db, remaining: map<Date, Row>, d0: Date, tail: seq<HolidayDto>,
                        db1: Db, rem1: map<Date, Row>, rest: LoopState)
    requires Valid(db) && IndexStored(db, remaining) && d0 in remaining
    requires rem1 == remaining - {d0} && db1.nextId == db.nextId
    requires forall k :: k < db1.nextId && k !in MatchedIds(rem1, tail) ==> FindById(rest.db, k) == FindById(db1, k)
    ensures FindById(rest.db, remaining[d0].id) == FindById(db1, remaining[d0].id)
  {
    var x := remaining[d0];
    IndexIdsBelow(db, remaining);
    forall e | e in rem1 ensures rem1[e].id != x.id {
      IndexIdsDistinct(db, remaining, e, d0);
    }
    assert x.id !in MatchedIds(rem1, tail);
  }

  /** A later fetched holiday that is the first of its date reads from the
      rest's index the same entry as from the whole. */
  lemma {:induction false} MatchedTail(remaining: map<Date, Row>, latest: seq<HolidayDto>, rem1: map<Date, Row>,
                    rest: LoopState, now: Timestamp)
    requires |latest| > 0
    requires rem1 == remaining - {latest[0].date} || rem1 == remaining
    requires forall i :: 0 <= i < |latest[1..]| && latest[1..][i].date in rem1 && FirstOfDate(latest[1..], i) ==>
      FindById(rest.db, rem1[latest[1..][i].date].id) == Some(ApplyDto(rem1[latest[1..][i].date].holiday, latest[1..][i], now))
    ensures forall i :: 1 <= i < |latest| && latest[i].date in remaining && FirstOfDate(latest, i) ==>
      FindById(rest.db, remaining[latest[i].date].id) == Some(ApplyDto(remaining[latest[i].date].holiday, latest[i], now))
  {
    var tail := latest[1..];
    forall i | 1 <= i < |latest| && latest[i].date in remaining && FirstOfDate(latest, i)
      ensures FindById(rest.db, remaining[latest[i].date].id)
           == Some(ApplyDto(remaining[latest[i].date].holiday, latest[i], now))
    {
      assert latest[i] == tail[i - 1];
      assert latest[i].date != latest[0].date;
      assert FirstOfDate(tail, i - 1) by {
        forall j | 0 <= j < i - 1 ensures tail[j].date != tail[i - 1].date {
          assert tail[j] == latest[j + 1];
        }
      }
    }
  }

  /** The records no step matched read as before. */
  lemma {:induction false} WrittenStepOthers(db: Db, remaining: map<Date, Row>, latest: seq<HolidayDto>, countryName: string,
                          now: Timestamp, db1: Db, rem1: map<Date, Row>, kind: StepKind, rest: LoopState)
    requires |latest| > 0 && Valid(db) && IndexStored(db, remaining)
    requires Step(db, remaining, latest[0], countryName, now) == Success((db1, rem1, kind))
    requires WrittenAsFetched(db1, rem1, latest[1..], countryName, now, rest)
    ensures forall k :: k < db.nextId && k !in MatchedIds(remaining, latest) ==> FindById(rest.db, k) == FindById(db, k)
  {
    MatchedIdsShrink(remaining, rem1, latest);
    FetchedDatesCons(latest);
    if kind == Updated {
      assert remaining[latest[0].date].id in MatchedIds(remaining, latest);
    }
  }

  /** Counts the step of kind `kind` in front of the rest of the loop. */
  function Tally(rest: Result<LoopState, Fault>, kind: StepKind): (r: Result<LoopState, Fault>)
    ensures r.Failure? <==> rest.Failure?
    ensures r.Failure? ==> r.error == rest.error
    ensures r.Success? ==> r.value.db == rest.value.db && r.value.remaining == rest.value.remaining
    ensures r.Success? ==> r.value.updated == rest.value.updated + (if kind == Updated then 1 else 0)
    ensures r.Success? ==> r.value.added == rest.value.added + (if kind == Added then 1 else 0)
  {
    if rest.Failure? then rest
    else
      match kind
      case Updated => Success(rest.value.(updated := rest.value.updated + 1))
      case Added => Success(rest.value.(added := rest.value.added + 1))
  }

  /** A successful loop consumes the index entry of every fetched date. */
  lemma {:induction false} ReconcileConsumes(db: Db, remaining: map<Date, Row>, latest: seq<HolidayDto>,
                                             countryName: string, now: Timestamp)
    requires Reconcile(db, remaining, latest, countryName, now).Success?
    ensures forall i :: 0 <= i < |latest| ==> latest[i].date !in Reconcile(db, remaining, latest, countryName, now).value.remaining
    decreases |latest|
  {
    if |latest| > 0 {
      ReconcileUnfold(db, remaining, latest, countryName, now);
      var (db1, rem1, _) := Step(db, remaining, latest[0], countryName, now).value;
      ReconcileConsumes(db1, rem1, latest[1..], countryName, now);
      var st := Reconcile(db, remaining, latest, countryName, now).value;
      forall i | 1 <= i < |latest| ensures latest[i].date !in st.remaining {
        assert latest[i] == latest[1..][i - 1];
      }
    }
  }

  /** A successful loop keeps every index entry whose date was not fetched. */
  lemma {:induction false} ReconcileKeepsUnfetched(db: Db, remaining: map<Date, Row>, latest: seq<HolidayDto>,
                                                   countryName: string, now: Timestamp)
    requires Reconcile(db, remaining, latest, countryName, now).Success?
    ensures forall d :: d in remaining && d !in FetchedDates(latest) ==>
      d in Reconcile(db, remaining, latest, countryName, now).value.remaining
    decreases |latest|
  {
    if |latest| > 0 {
      ReconcileUnfold(db, remaining, latest, countryName, now);
      var (db1, rem1, _) := Step(db, remaining, latest[0], countryName, now).value;
      ReconcileKeepsUnfetched(db1, rem1, latest[1..], countryName, now);
      FetchedDatesCons(latest);
    }
  }

  lemma FetchedDatesCons(latest: seq<HolidayDto>)
    requires |latest| > 0
    ensures FetchedDates(latest) == {latest[0].date} + FetchedDates(latest[1..])
  {
    assert forall dto :: dto in latest <==> dto == latest[0] || dto in latest[1..];
  }

  /** The loop fails on a consistent store only when some fetched holiday
      carries a country code the table refuses. */
  lemma {:induction false} ReconcileFailureCause(db: Db, remaining: map<Date, Row>, latest: seq<HolidayDto>,
                                                 countryName: string, now: Timestamp)
    requires Valid(db) && IndexPresent(db, remaining)
    requires Reconcile(db, remaining, latest, countryName, now).Failure?
    ensures exists i :: 0 <= i < |latest| && |latest[i].countryCode| > 2
    decreases |latest|
  {
    ReconcileUnfold(db, remaining, latest, countryName, now);
    var s := Step(db, remaining, latest[0], countryName, now);
    if s.Failure? {
      assert |latest[0].countryCode| > 2;
    } else {
      var (db1, rem1, _) := s.value;
      ReconcileFailureCause(db1, rem1, latest[1..], countryName, now);
      var j :| 0 <= j < |latest[1..]| && |latest[1..][j].countryCode| > 2;
      assert latest[j + 1] == latest[1..][j];
    }
  }

  /** A step changes no row outside the unconsumed index entries. */
  lemma StepKeepsUnindexed(db: Db, remaining: map<Date, Row>, dto: HolidayDto, countryName: string, now: Timestamp)
    requires Step(db, remaining, dto, countryName, now).Success?
    ensures var (db1, rem1, _) := Step(db, remaining, dto, countryName, now).value;
      && IdsOf(rem1) <= IdsOf(remaining)
      && forall x :: x in db.rows && x.id !in IdsOf(remaining) ==> x in db1.rows
  {
    if dto.date in remaining {
      assert remaining[dto.date].id in IdsOf(remaining);
    }
  }

  /** The loop changes no row outside the index entries it started with. */
  lemma {:induction false} ReconcileKeepsUnindexed(db: Db, remaining: map<Date, Row>, latest: seq<HolidayDto>,
                                                   countryName: string, now: Timestamp)
    requires Reconcile(db, remaining, latest, countryName, now).Success?
    ensures forall x :: x in db.rows && x.id !in IdsOf(remaining) ==>
      x in Reconcile(db, remaining, latest, countryName, now).value.db.rows
    decreases |latest|
  {
    if |latest| > 0 {
      ReconcileUnfold(db, remaining, latest, countryName, now);
      var (db1, rem1, _) := Step(db, remaining, latest[0], countryName, now).value;
      StepKeepsUnindexed(db, remaining, latest[0], countryName, now);
      ReconcileKeepsUnindexed(db1, rem1, latest[1..], countryName, now);
    }
  }

  /** One step of the loop, unfolded. */
  lemma ReconcileUnfold(db: Db, remaining: map<Date, Row>, latest: seq<HolidayDto>,
                        countryName: string, now: Timestamp)
    requires |latest| > 0
    ensures var s := Step(db, remaining, latest[0], countryName, now);
      && (s.Failure? ==> Reconcile(db, remaining, latest, countryName, now) == Failure(s.error))
      && (s.Success? ==> Reconcile(db, remaining, latest, countryName, now)
                         == Tally(Reconcile(s.value.0, s.value.1, latest[1..], countryName, now), s.value.2))
  {
  }

  /** The records of the reconciliation window: the form's code and exact
      country name, dated in the form's year. */
  function Partition(db: Db, code: string, name: string, year: int): (r: seq<Row>)
    requires ValidYear(year)
    ensures forall x :: x in r <==> x in db.rows && InPartition(x.holiday, code, name, GetYearRange(year))
  {
    FindByCountryCodeAndCountryNameAndDateBetween(db, code, name, GetYearStartDate(year), GetYearEndDate(year))
  }

  /** `updateHolidayDataInTransaction`: reconciles the form's window with
      the fetched list.  A year outside `LocalDate`'s range, two stored
      records of the window sharing a date, or a null list fail with an
      unchecked exception before anything is written; a rejected new row
      fails the whole transaction.  On success every fetched holiday is
      counted once as updated or added, every stored record of the window
      once as updated or deleted, and records outside the window are kept. */
  function UpdateHolidayDataInTransaction(db: Db, form: UpdateForm, latest: Option<seq<HolidayDto>>,
                                          now: Timestamp): (r: Result<(Db, UpdateResult), Fault>)
    ensures !ValidYear(form.year) ==> r == Failure(Unchecked(DateOutOfRange))
    ensures ValidYear(form.year) && !DistinctDates(Partition(db, form.countryCode, form.countryName, form.year)) ==>
      r == Failure(Unchecked(DuplicateKey))
    ensures (ValidYear(form.year) && DistinctDates(Partition(db, form.countryCode, form.countryName, form.year))
             && latest.None?) ==> r == Failure(Unchecked(NullReference))
    ensures r.Success? ==>
      var (db', res) := r.value;
      && res.addedCount + res.updatedCount == |latest.value|
      && res.updatedCount + res.deletedCount == |Partition(db, form.countryCode, form.countryName, form.year)|
      && res.updatedCount >= 0 && res.addedCount >= 0 && res.deletedCount >= 0
      && (Valid(db) ==> Valid(db'))
    ensures r.Success? && Valid(db) ==>
      forall x :: x in db.rows && !InPartition(x.holiday, form.countryCode, form.countryName, GetYearRange(form.year))
        ==> x in r.value.0.rows
    ensures r.Failure? ==>
      r.error.Unchecked? || r.error == Business(HolidayNotFound) || r.error == Business(HolidayBulkSaveFailed)
    ensures r.Failure? && Valid(db) ==> r.error != Business(HolidayNotFound)
  {
    if !ValidYear(form.year) then Failure(Unchecked(DateOutOfRange))
    else
      var existing := Partition(db, form.countryCode, form.countryName, form.year);
      match DateIndex(existing)
      case None => Failure(Unchecked(DuplicateKey))
      case Some(index) =>
        if latest.None? then Failure(Unchecked(NullReference))
        else
          IndexOfPartition(db, form, existing, index);
          match Reconcile(db, index, latest.value, form.countryName, now)
          case Failure(e) => Failure(e)
          case Success(st) =>
            ReconcileKeepsUnindexed(db, index, latest.value, form.countryName, now);
            if |st.remaining| == 0 then Success((st.db, UpdateResult(st.updated, st.added, 0)))
            else
              var ids := IdsOf(st.remaining);
              Success((DeleteAllByIdInBatch(st.db, ids), UpdateResult(st.updated, st.added, |st.remaining|)))
  }

  /** The date index of the window holds window rows only, all stored, and
      no record outside the window shares an id with one of them. */
  lemma IndexOfPartition(db: Db, form: UpdateForm, existing: seq<Row>, index: map<Date, Row>)
    requires ValidYear(form.year)
    requires existing == Partition(db, form.countryCode, form.countryName, form.year)
    requires DateIndex(existing) == Some(index)
    ensures IndexPresent(db, index)
    ensures Valid(db) ==>
      forall x :: x in db.rows && !InPartition(x.holiday, form.countryCode, form.countryName, GetYearRange(form.year))
        ==> x.id !in IdsOf(index)
  {
    forall d | d in index ensures HasId(db, index[d].id) {
      assert index[d] in db.rows;
    }
    if Valid(db) {
      forall x | x in db.rows && !InPartition(x.holiday, form.countryCode, form.countryName, GetYearRange(form.year))
        ensures x.id !in IdsOf(index)
      {
        if x.id in IdsOf(index) {
          var d :| d in index && index[d].id == x.id;
          RowsDeterminedById(db, x, index[d]);
        }
      }
    }
  }

  /** A step never loses an id: an update rewrites its row in place and an
      add only appends. */
  lemma StepKeepsIds(db: Db, remaining: map<Date, Row>, dto: HolidayDto, countryName: string,
                     now: Timestamp, k: int)
    requires Step(db, remaining, dto, countryName, now).Success?
    requires HasId(db, k)
    ensures HasId(Step(db, remaining, dto, countryName, now).value.0, k)
  {
    if dto.date !in remaining {
      HasIdGrows(db, Step(db, remaining, dto, countryName, now).value.0, k);
    }
  }

  /** The loop never loses an id. */
  lemma {:induction false} ReconcileKeepsIds(db: Db, remaining: map<Date, Row>, latest: seq<HolidayDto>,
                                             countryName: string, now: Timestamp, k: int)
    requires Reconcile(db, remaining, latest, countryName, now).Success?
    requires HasId(db, k)
    ensures HasId(Reconcile(db, remaining, latest, countryName, now).value.db, k)
    decreases |latest|
  {
    if |latest| > 0 {
      ReconcileUnfold(db, remaining, latest, countryName, now);
      var (db1, rem1, _) := Step(db, remaining, latest[0], countryName, now).value;
      StepKeepsIds(db, remaining, latest[0], countryName, now, k);
      ReconcileKeepsIds(db1, rem1, latest[1..], countryName, now, k);
    }
  }

  /** The window records a successful sync deletes are exactly those whose
      date no fetched holiday carries: the record of a fetched date stays
      under its id (updated in place), the record of any other date is
      gone. */
  lemma UpdateDeletesExactlyUnfetched(db: Db, form: UpdateForm, latest: seq<HolidayDto>, now: Timestamp, x: Row)
    requires Valid(db)
    requires UpdateHolidayDataInTransaction(db, form, Some(latest), now).Success?
    requires x in Partition(db, form.countryCode, form.countryName, form.year)
    ensures HasId(UpdateHolidayDataInTransaction(db, form, Some(latest), now).value.0, x.id)
            <==> x.holiday.date in FetchedDates(latest)
  {
    var existing := Partition(db, form.countryCode, form.countryName, form.year);
    UpdateOutcome(db, form, latest, now);
    var index := DateIndex(existing).value;
    IndexOfPartition(db, form, existing, index);
    var st := Reconcile(db, index, latest, form.countryName, now).value;
    assert index[x.holiday.date] == x;
    if x.holiday.date in FetchedDates(latest) {
      var dto :| dto in latest && dto.date == x.holiday.date;
      var i :| 0 <= i < |latest| && latest[i] == dto;
      ReconcileConsumes(db, index, latest, form.countryName, now);
      ReconcileKeepsIds(db, index, latest, form.countryName, now, x.id);
      assert x.id !in IdsOf(st.remaining) by {
        forall d | d in st.remaining ensures st.remaining[d].id != x.id {
          if st.remaining[d].id == x.id {
            RowsDeterminedById(db, index[d], x);
          }
        }
      }
    } else {
      ReconcileKeepsUnfetched(db, index, latest, form.countryName, now);
      assert x.id in IdsOf(st.remaining);
    }
  }

  /** The dates of the window's records, the keys of its date index. */
  function WindowDates(window: seq<Row>): set<Date> {
    set x | x in window :: x.holiday.date
  }

  /** What a successful sync leaves under each id: the record of every
      window date some fetched holiday carries holds the first fetched
      holiday of that date applied to it, and the fetched holidays left
      unmatched are new records under the country name, in fetch order,
      under the next sequence values. */
  lemma UpdateWritesFetched(db: Db, form: UpdateForm, latest: seq<HolidayDto>, now: Timestamp)
    requires Valid(db)
    requires UpdateHolidayDataInTransaction(db, form, Some(latest), now).Success?
    ensures ValidYear(form.year)
    ensures var db' := UpdateHolidayDataInTransaction(db, form, Some(latest), now).value.0;
      var window := Partition(db, form.countryCode, form.countryName, form.year);
      var adds := Unmatched(WindowDates(window), latest);
      && db'.nextId == db.nextId + |adds|
      && AddsWritten(db', db.nextId, adds, form.countryName, now)
      && (forall i, x :: 0 <= i < |latest| && x in window && x.holiday.date == latest[i].date && FirstOfDate(latest, i) ==>
            FindById(db', x.id) == Some(ApplyDto(x.holiday, latest[i], now)))
  {
    var window := Partition(db, form.countryCode, form.countryName, form.year);
    UpdateOutcome(db, form, latest, now);
    var index := DateIndex(window).value;
    assert IndexStored(db, index) && IndexOf(index, window) by {
      IndexOfPartition(db, form, window, index);
    }
    var st := Reconcile(db, index, latest, form.countryName, now).value;
    var db' := UpdateHolidayDataInTransaction(db, form, Some(latest), now).value.0;
    WindowWrites(db, window, index, latest, form.countryName, now, st, db');
  }

  /** The window's writes, from the loop's result and the batch delete. */
  lemma WindowWrites(db: Db, window: seq<Row>, index: map<Date, Row>, latest: seq<HolidayDto>,
                     countryName: string, now: Timestamp, st: LoopState, db': Db)
    requires Valid(db) && IndexStored(db, index) && IndexOf(index, window)
    requires Reconcile(db, index, latest, countryName, now) == Success(st)
    requires db'.nextId == st.db.nextId
    requires forall k :: FindById(db', k) == if k in IdsOf(st.remaining) then None else FindById(st.db, k)
    ensures var adds := Unmatched(WindowDates(window), latest);
      && db'.nextId == db.nextId + |adds|
      && AddsWritten(db', db.nextId, adds, countryName, now)
      && (forall i, x :: 0 <= i < |latest| && x in window && x.holiday.date == latest[i].date && FirstOfDate(latest, i) ==>
            FindById(db', x.id) == Some(ApplyDto(x.holiday, latest[i], now)))
  {
    assert index.Keys == WindowDates(window);
    var adds := Unmatched(index.Keys, latest);
    assert db'.nextId == db.nextId + |adds| && AddsWritten(db', db.nextId, adds, countryName, now)
        && MatchedWritten(db', index, latest, now) by {
      ReconcileConsumes(db, index, latest, countryName, now);
      ReconcileWritesFetched(db, index, latest, countryName, now);
      DeleteKeepsWritten(db, index, latest, countryName, now, st, db');
    }
    forall i, x | 0 <= i < |latest| && x in window && x.holiday.date == latest[i].date && FirstOfDate(latest, i)
      ensures FindById(db', x.id) == Some(ApplyDto(x.holiday, latest[i], now))
    {
      assert index[latest[i].date] == x;
    }
  }

  /** A successful sync, unfolded: the loop ran on the window's date index
      and succeeded, and the store it left differs from the loop's only by
      the unconsumed entries' ids. */
  lemma UpdateOutcome(db: Db, form: UpdateForm, latest: seq<HolidayDto>, now: Timestamp)
    requires Valid(db)
    requires UpdateHolidayDataInTransaction(db, form, Some(latest), now).Success?
    ensures ValidYear(form.year)
    ensures var window := Partition(db, form.countryCode, form.countryName, form.year);
      && DateIndex(window).Some?
      && var c := Reconcile(db, DateIndex(window).value, latest, form.countryName, now);
      && c.Success?
      && var db' := UpdateHolidayDataInTransaction(db, form, Some(latest), now).value.0;
      && db'.nextId == c.value.db.nextId
      && forall k :: FindById(db', k) == if k in IdsOf(c.value.remaining) then None else FindById(c.value.db, k)
  {
  }

  /** Deleting the unconsumed index entries after the loop keeps what the
      loop wrote: those entries are neither matched nor new. */
  lemma DeleteKeepsWritten(db: Db, index: map<Date, Row>, latest: seq<HolidayDto>, countryName: string,
                           now: Timestamp, st: LoopState, db': Db)
    requires Valid(db) && IndexStored(db, index)
    requires WrittenAsFetched(db, index, latest, countryName, now, st)
    requires forall d :: d in st.remaining ==> d in index && st.remaining[d] == index[d]
    requires forall i :: 0 <= i < |latest| ==> latest[i].date !in st.remaining
    requires db'.nextId == st.db.nextId
    requires forall k :: k !in IdsOf(st.remaining) ==> FindById(db', k) == FindById(st.db, k)
    ensures var adds := Unmatched(index.Keys, latest);
      && db'.nextId == db.nextId + |adds|
      && AddsWritten(db', db.nextId, adds, countryName, now)
      && MatchedWritten(db', index, latest, now)
  {
    var adds := Unmatched(index.Keys, latest);
    assert forall d :: d in st.remaining ==> st.remaining[d].id < db.nextId by {
      IndexIdsBelow(db, index);
    }
    assert AddsWritten(st.db, db.nextId, adds, countryName, now) && MatchedWritten(st.db, index, latest, now);
    DeleteKeepsAdds(st, db', db.nextId, adds, countryName, now);
    DeleteKeepsMatched(db, index, latest, now, st, db');
  }

  /** Records stored from `base` on survive deleting ids below `base`. */
  lemma DeleteKeepsAdds(st: LoopState, db': Db, base: int, adds: seq<HolidayDto>, countryName: string, now: Timestamp)
    requires forall d :: d in st.remaining ==> st.remaining[d].id < base
    requires AddsWritten(st.db, base, adds, countryName, now)
    requires forall k :: k !in IdsOf(st.remaining) ==> FindById(db', k) == FindById(st.db, k)
    ensures AddsWritten(db', base, adds, countryName, now)
  {
    forall j | 0 <= j < |adds|
      ensures FindById(db', base + j) == Some(FromDto(adds[j], countryName, now))
    {
      assert base + j !in IdsOf(st.remaining);
    }
  }

  /** The matched records survive deleting the unconsumed entries, which
      are other rows of the index. */
  lemma DeleteKeepsMatched(db: Db, index: map<Date, Row>, latest: seq<HolidayDto>, now: Timestamp,
                           st: LoopState, db': Db)
    requires Valid(db) && IndexStored(db, index)
    requires MatchedWritten(st.db, index, latest, now)
    requires forall d :: d in st.remaining ==> d in index && st.remaining[d] == index[d]
    requires forall i :: 0 <= i < |latest| ==> latest[i].date !in st.remaining
    requires forall k :: k !in IdsOf(st.remaining) ==> FindById(db', k) == FindById(st.db, k)
    ensures MatchedWritten(db', index, latest, now)
  {
    forall i | 0 <= i < |latest| && latest[i].date in index && FirstOfDate(latest, i)
      ensures FindById(db', index[latest[i].date].id) == Some(ApplyDto(index[latest[i].date].holiday, latest[i], now))
    {
      var e := latest[i].date;
      assert index[e].id !in IdsOf(st.remaining) by {
        forall d | d in st.remaining ensures st.remaining[d].id != index[e].id {
          IndexIdsDistinct(db, index, d, e);
        }
      }
    }
  }

  /** An empty fetched list deletes every window record, adds nothing and
      keeps every other record. */
  lemma EmptyFetchClearsWindow(db: Db, form: UpdateForm, now: Timestamp)
    requires Valid(db)
    requires UpdateHolidayDataInTransaction(db, form, Some([]), now).Success?
    ensures var (db', res) := UpdateHolidayDataInTransaction(db, form, Some([]), now).value;
      && res == UpdateResult(0, 0, |Partition(db, form.countryCode, form.countryName, form.year)|)
      && forall x :: x in db'.rows <==>
           x in db.rows && !InPartition(x.holiday, form.countryCode, form.countryName, GetYearRange(form.year))
  {
    var existing := Partition(db, form.countryCode, form.countryName, form.year);
    var index := DateIndex(existing).value;
    IndexOfPartition(db, form, existing, index);
    var (db', res) := UpdateHolidayDataInTransaction(db, form, Some([]), now).value;
    forall x | x in db.rows && InPartition(x.holiday, form.countryCode, form.countryName, GetYearRange(form.year))
      ensures x.id in IdsOf(index)
    {
      assert x in existing;
      assert index[x.holiday.date] == x;
    }
  }

  /** `updateHolidayList`: fetches the form's year and reconciles it.  A
      failing call raises `HOLIDAY_API_CALL_FAILED`; a business exception
      passes through; any other exception becomes `HOLIDAY_UPDATE_FAILED`.
      The store changes only on success. */
  function UpdateHolidayList(db: Db, form: UpdateForm, fetched: Fetch, now: Timestamp): (r: Result<(Db, UpdateResult), Fault>)
    ensures r.Failure? ==> r.error.Business?
    ensures fetched.CallFailed? <==> r == Failure(Business(HolidayApiCallFailed))
    ensures fetched.NoBody? ==> r == Failure(Business(HolidayUpdateFailed))
    ensures !ValidYear(form.year) && !fetched.CallFailed? ==> r == Failure(Business(HolidayUpdateFailed))
    ensures Valid(db) && r.Failure? ==> r.error != Business(HolidayNotFound)
    ensures r.Success? <==> fetched.Fetched? && UpdateHolidayDataInTransaction(db, form, Some(fetched.holidays), now).Success?
    ensures r.Success? ==> r == UpdateHolidayDataInTransaction(db, form, Some(fetched.holidays), now)
  {
    match fetched
    case CallFailed => Failure(Business(HolidayApiCallFailed))
    case NoBody => AsBusiness(UpdateHolidayDataInTransaction(db, form, None, now))
    case Fetched(list) => AsBusiness(UpdateHolidayDataInTransaction(db, form, Some(list), now))
  }

  /** A sync of one year never touches the stored records of another year:
      whatever is fetched, the window is exactly the form's year. */
  lemma UpdateHolidayListKeepsOtherYears(db: Db, form: UpdateForm, fetched: Fetch, now: Timestamp)
    requires Valid(db)
    requires UpdateHolidayList(db, form, fetched, now).Success?
    ensures forall x :: x in db.rows && ValidDate(x.holiday.date) && x.holiday.date.year != form.year ==>
      x in UpdateHolidayList(db, form, fetched, now).value.0.rows
  {
    var r := UpdateHolidayDataInTransaction(db, form, Some(fetched.holidays), now);
    assert ValidYear(form.year);
    forall x | x in db.rows && ValidDate(x.holiday.date) && x.holiday.date.year != form.year
      ensures x in r.value.0.rows
    {
      assert !InPartition(x.holiday, form.countryCode, form.countryName, GetYearRange(form.year));
    }
  }

  /** The `catch` of `updateHolidayList`: a business exception is rethrown
      as it is, any other becomes `HOLIDAY_UPDATE_FAILED`. */
  function AsBusiness<T>(r: Result<T, Fault>): (r': Result<T, Fault>)
    ensures r.Success? ==> r' == r
    ensures r.Failure? && r.error.Business? ==> r' == r
    ensures r.Failure? && r.error.Unchecked? ==> r' == Failure(Business(HolidayUpdateFailed))
  {
    match r
    case Success(v) => Success(v)
    case Failure(Business(code)) => Failure(Business(code))
    case Failure(Unchecked(_)) => Failure(Business(HolidayUpdateFailed))
  }

  // ---------------------------------------------------------------------
  // deleteHoliday

  /** `deleteHoliday`: removes the form's country's records dated in the
      year, whatever their stored country name; removing none is not an
      error.  A year outside `LocalDate`'s range raises
      `HOLIDAY_UPDATE_FAILED`. */
  function DeleteHoliday(db: Db, form: DeleteForm): (r: Result<(Db, int), Fault>)
    ensures r.Failure? <==> !ValidYear(form.year)
    ensures r.Failure? ==> r.error == Business(HolidayUpdateFailed)
    ensures r.Success? ==>
      && (forall x :: x in r.value.0.rows <==>
            x in db.rows && !(x.holiday.countryCode == form.countryCode && InRange(x.holiday.date, GetYearRange(form.year))))
      && (forall x :: x in db.rows && ValidDate(x.holiday.date) ==>
            (x in r.value.0.rows <==> !(x.holiday.countryCode == form.countryCode && x.holiday.date.year == form.year)))
      && r.value.1 == |db.rows| - |r.value.0.rows|
      && (Valid(db) ==> Valid(r.value.0))
  {
    if !ValidYear(form.year) then Failure(Business(HolidayUpdateFailed))
    else
      var (db', n) := DeleteByCountryCodeAndYear(db, form.countryCode, form.year);
      Success((db', n))
  }
}
