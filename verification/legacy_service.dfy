/** `serivce.HolidayService`: the older service, still wired to the
    synchronous initializer and the controller.  It differs from `Service` in
    three ways the model keeps:

    - its exceptions are never translated into business codes;
    - its list/string helpers treat a blank string as the empty list;
    - `updateHolidayList` reads the stored window of 2024 whatever year the
      form names, and builds a second `toMap` over the fetched list.

    Its search operations are the same code as the current service's and
    are modelled once, in `Search`. */
module LegacyService {
  import opened Wrappers
  import opened DateUtils
  import opened Entity
  import opened Errors
  import opened Store
  import opened Client
  import opened JavaText
  import StringArrayUtils
  import Service
  import BulkRepository

  /** The year whose stored records `updateHolidayList` reconciles. */
  const LegacyWindowYear := 2024

  // ---------------------------------------------------------------------
  // List/string helpers

  /** `convertTypesListToString` / `convertCountiesListToString`: null for
      a null or empty list, otherwise the comma join; the same column value
      `joinFromList` writes. */
  function ListToString(list: Option<seq<string>>): (r: Option<string>)
    ensures r == StringArrayUtils.JoinFromList(list)
  {
    if list.None? || |list.value| == 0 then None
    else Some(StringArrayUtils.Join(list.value))
  }

  /** `convertStringToTypesList` / `convertStringToCountiesList`: the empty
      list for a null string or one that trims to nothing, otherwise the
      comma split.  On every other string it agrees with `splitToList`. */
  function StringToList(s: Option<string>): (r: seq<string>)
    ensures s.None? || TrimIsEmpty(s.value) ==> r == []
    ensures s.Some? && !TrimIsEmpty(s.value) ==> r == StringArrayUtils.SplitToList(s)
  {
    if s.None? || TrimIsEmpty(s.value) then [] else StringArrayUtils.JavaSplit(s.value)
  }

  /** The two decoders disagree on a blank column value: the legacy one
      drops it, `splitToList` keeps it as one element. */
  lemma BlankColumnDecodesDifferently()
    ensures StringToList(Some(" ")) == []
    ensures StringArrayUtils.SplitToList(Some(" ")) == [" "]
  {
  }

  /** A list the column codec gives back unchanged: no element holds a
      comma and the last element has a character above U+0020, so neither
      the split nor the blank test loses anything. */
  predicate Recoverable(xs: seq<string>) {
    && |xs| > 0
    && (forall i :: 0 <= i < |xs| ==> ',' !in xs[i])
    && !TrimIsEmpty(xs[|xs| - 1])
  }

  /** A visible character of the last element survives the join. */
  lemma {:induction false} JoinKeepsVisibleLast(xs: seq<string>)
    requires |xs| > 0 && !TrimIsEmpty(xs[|xs| - 1])
    ensures !TrimIsEmpty(StringArrayUtils.Join(xs))
  {
    if |xs| > 1 {
      JoinKeepsVisibleLast(xs[1..]);
      var tail := StringArrayUtils.Join(xs[1..]);
      var p :| 0 <= p < |tail| && tail[p] > ' ';
      var joined := StringArrayUtils.Join(xs);
      assert joined == xs[0] + "," + tail;
      assert joined[|xs[0]| + 1 + p] == tail[p];
    }
  }

  /** The legacy codec round-trips a recoverable list. */
  lemma ListCodecRoundTrip(xs: seq<string>)
    requires Recoverable(xs)
    ensures StringToList(ListToString(Some(xs))) == xs
  {
    JoinKeepsVisibleLast(xs);
    StringArrayUtils.SplitJoinRoundTrip(xs);
  }

  // ---------------------------------------------------------------------
  // saveAllHolidaysBulk

  /** `convertToEntityBulk`: the fetched fields, the mapped country name
      (or the code followed by " (Unknown)"), the lists joined, both
      timestamps from the clock. */
  function ConvertToEntityBulk(dto: HolidayDto, names: map<string, string>, now: Timestamp): (h: Holiday)
    ensures h == Service.ConvertToEntityBulk(dto, names, now)
  {
    var countryName := if dto.countryCode in names then names[dto.countryCode] else dto.countryCode + " (Unknown)";
    NewHoliday(dto.countryCode, countryName, dto.date, dto.localName, dto.name, dto.fixed, dto.global,
               dto.launchYear, ListToString(dto.types), ListToString(dto.counties), now)
  }

  /** `convertToDtoBulk`: the stored record read back as a fetched holiday;
      the two lists are never null. */
  function ConvertToDtoBulk(h: Holiday): (dto: HolidayDto)
    ensures dto.date == h.date && dto.localName == h.localName && dto.name == h.name
    ensures dto.countryCode == h.countryCode && dto.launchYear == h.launchYear
    ensures dto.fixed == h.fixed && dto.global == h.global
    ensures dto.types == Some(StringToList(h.types)) && dto.counties == Some(StringToList(h.counties))
  {
    HolidayDto(h.date, h.localName, h.name, h.countryCode, h.fixed, h.global,
               Some(StringToList(h.counties)), h.launchYear, Some(StringToList(h.types)))
  }

  /** The fetched holiday with a null list read as the empty list. */
  function WithListedLists(dto: HolidayDto): HolidayDto {
    dto.(types := Some(dto.types.GetOr([])), counties := Some(dto.counties.GetOr([])))
  }

  /** A list field that survives the store: null, empty, or recoverable. */
  predicate SurvivesStore(list: Option<seq<string>>) {
    list.None? || list == Some([]) || Recoverable(list.value)
  }

  /** Storing a fetched holiday and reading it back gives the holiday
      again, except that a null or empty list comes back as []. */
  lemma BulkDtoRoundTrip(dto: HolidayDto, names: map<string, string>, now: Timestamp)
    requires SurvivesStore(dto.types) && SurvivesStore(dto.counties)
    ensures ConvertToDtoBulk(ConvertToEntityBulk(dto, names, now)) == WithListedLists(dto)
  {
    if dto.types.Some? && dto.types != Some([]) {
      ListCodecRoundTrip(dto.types.value);
    }
    if dto.counties.Some? && dto.counties != Some([]) {
      ListCodecRoundTrip(dto.counties.value);
    }
  }

  function ConvertAllToDto(hs: seq<Holiday>): (dtos: seq<HolidayDto>)
    ensures |dtos| == |hs|
    ensures forall i :: 0 <= i < |hs| ==> dtos[i] == ConvertToDtoBulk(hs[i])
  {
    if |hs| == 0 then [] else [ConvertToDtoBulk(hs[0])] + ConvertAllToDto(hs[1..])
  }

  /** `saveAllHolidaysBulk` (legacy): a null or empty list saves nothing and
      returns [].  Otherwise `saveAll` stores the converted entities in
      order (null flags stay null) and the stored records come back
      converted to fetched holidays; a rejected save is rethrown as a plain
      runtime exception. */
  function SaveAllHolidaysBulk(db: Db, dtos: Option<seq<HolidayDto>>, names: map<string, string>,
                               now: Timestamp): (r: Result<(Db, seq<HolidayDto>), Fault>)
    ensures (dtos == None || dtos == Some([])) ==> r == Success((db, []))
    ensures r.Failure? <==> dtos.Some? && exists i :: 0 <= i < |dtos.value| && |dtos.value[i].countryCode| > 2
    ensures r.Failure? ==> r.error == Unchecked(WriteRejected)
    ensures r.Success? && dtos.Some? ==>
      var (db', out) := r.value;
      && |out| == |dtos.value|
      && |db'.rows| == |db.rows| + |out|
      && db'.rows[..|db.rows|] == db.rows
      && SavedReflects(db, db', dtos.value, names)
      && (forall i :: 0 <= i < |out| && SurvivesStore(dtos.value[i].types) && SurvivesStore(dtos.value[i].counties) ==>
            out[i] == WithListedLists(dtos.value[i]))
      && (Valid(db) ==> Valid(db'))
  {
    if dtos == None || dtos == Some([]) then Success((db, []))
    else
      var hs := Service.ConvertAllBulk(dtos.value, names, now);
      Service.BulkAcceptance(dtos.value, names, now);
      if !BulkRepository.AllAccepted(hs) then Failure(Unchecked(WriteRejected))
      else
        var db' := SaveAll(db, hs);
        var out := ConvertAllToDto(hs);
        SavedRowsReflect(db, dtos.value, names, now);
        BulkOutputRoundTrips(dtos.value, names, now);
        Success((db', out))
  }

  /** The rows appended after the first `|db.rows|` carry, in order, the
      content of `dtos` (null flags kept null) and the country name looked
      up for each code. */
  predicate SavedReflects(db: Db, db': Db, dtos: seq<HolidayDto>, names: map<string, string>)
    requires |db'.rows| == |db.rows| + |dtos|
  {
    forall i :: 0 <= i < |dtos| ==>
      && Reflects(db'.rows[|db.rows| + i].holiday, dtos[i])
      && db'.rows[|db.rows| + i].holiday.countryName == Service.CountryNameFor(names, dtos[i].countryCode)
  }

  lemma SavedRowsReflect(db: Db, dtos: seq<HolidayDto>, names: map<string, string>, now: Timestamp)
    ensures SavedReflects(db, SaveAll(db, Service.ConvertAllBulk(dtos, names, now)), dtos, names)
  {
    var hs := Service.ConvertAllBulk(dtos, names, now);
    var db' := SaveAll(db, hs);
    forall i | 0 <= i < |dtos|
      ensures Reflects(db'.rows[|db.rows| + i].holiday, dtos[i])
      ensures db'.rows[|db.rows| + i].holiday.countryName == Service.CountryNameFor(names, dtos[i].countryCode)
    {
      assert db'.rows[|db.rows| + i].holiday == hs[i];
    }
  }

  lemma BulkOutputRoundTrips(dtos: seq<HolidayDto>, names: map<string, string>, now: Timestamp)
    ensures var out := ConvertAllToDto(Service.ConvertAllBulk(dtos, names, now));
      forall i :: 0 <= i < |dtos| && SurvivesStore(dtos[i].types) && SurvivesStore(dtos[i].counties) ==>
        out[i] == WithListedLists(dtos[i])
  {
    var hs := Service.ConvertAllBulk(dtos, names, now);
    forall i | 0 <= i < |dtos| && SurvivesStore(dtos[i].types) && SurvivesStore(dtos[i].counties)
      ensures ConvertAllToDto(hs)[i] == WithListedLists(dtos[i])
    {
      BulkDtoRoundTrip(dtos[i], names, now);
    }
  }

  // ---------------------------------------------------------------------
  // saveHolidayList

  /** `saveHolidayList` (legacy): the same filtering and save as the
      current service, without a `catch`; a rejected row fails at the
      commit with the persistence exception, as in the current service. */
  function SaveHolidayList(db: Db, countryName: string, dtos: Option<seq<HolidayDto>>, now: Timestamp): (r: Result<Db, Fault>)
    ensures r == Service.SaveHolidayList(db, countryName, dtos, now)
    ensures r.Failure? ==> r.error == Unchecked(WriteRejected)
  {
    if dtos == None || dtos == Some([]) then Success(db)
    else
      var hs := Service.ConvertAll(Service.NotYetStored(db, dtos.value), countryName, now);
      if |hs| == 0 then Success(db)
      else if exists i :: 0 <= i < |hs| && !Accepts(hs[i]) then Failure(Unchecked(WriteRejected))
      else Success(SaveAll(db, hs))
  }

  // ---------------------------------------------------------------------
  // deleteHoliday

  /** `deleteHoliday` (legacy): the partition delete with nothing caught,
      so a year outside `LocalDate`'s range escapes as an unchecked
      exception; otherwise the same store as the current service. */
  function DeleteHoliday(db: Db, form: Service.DeleteForm): (r: Result<(Db, int), Fault>)
    ensures r.Failure? <==> !ValidYear(form.year)
    ensures r.Failure? ==> r.error == Unchecked(DateOutOfRange)
    ensures r.Success? ==> r == Service.DeleteHoliday(db, form)
  {
    if !ValidYear(form.year) then Failure(Unchecked(DateOutOfRange))
    else Success(DeleteByCountryCodeAndYear(db, form.countryCode, form.year))
  }

  // ---------------------------------------------------------------------
  // updateHolidayList

  /** `Collectors.toMap(HolidayDto::getDate, identity())` succeeds: no two
      fetched holidays share a date. */
  predicate DistinctFetchedDates(latest: seq<HolidayDto>) {
    forall i, j :: 0 <= i < j < |latest| ==> latest[i].date != latest[j].date
  }

  /** The ids of `rows`, in order. */
  function IdList(rows: seq<Row>): (ids: seq<int>)
    ensures |ids| == |rows|
    ensures forall i :: 0 <= i < |rows| ==> ids[i] == rows[i].id
  {
    if |rows| == 0 then [] else [rows[0].id] + IdList(rows[1..])
  }

  /** The stored window records whose date is not a key of the fetched
      map, in stored-list order. */
  function Doomed(existing: seq<Row>, fetched: set<Date>): (r: seq<Row>)
    ensures |r| <= |existing|
    ensures forall x :: x in r <==> x in existing && x.holiday.date !in fetched
    ensures (forall x :: x in existing ==> x.holiday.date !in fetched) ==> r == existing
  {
    if |existing| == 0 then []
    else if existing[0].holiday.date !in fetched then [existing[0]] + Doomed(existing[1..], fetched)
    else Doomed(existing[1..], fetched)
  }

  /** `idsToDelete`: the ids of the doomed records, in stored-list order. */
  function DoomedIds(existing: seq<Row>, fetched: set<Date>): (ids: seq<int>)
    ensures |ids| == |Doomed(existing, fetched)|
    ensures forall k :: k in ids <==> exists x :: x in existing && x.holiday.date !in fetched && x.id == k
  {
    var doomed := Doomed(existing, fetched);
    assert forall k :: k in IdList(doomed) ==> exists x :: x in doomed && x.id == k by {
      forall k | k in IdList(doomed) ensures exists x :: x in doomed && x.id == k {
        var i :| 0 <= i < |doomed| && IdList(doomed)[i] == k;
        assert doomed[i] in doomed;
      }
    }
    assert forall x :: x in doomed ==> x.id in IdList(doomed) by {
      forall x | x in doomed ensures x.id in IdList(doomed) {
        var i :| 0 <= i < |doomed| && doomed[i] == x;
        assert IdList(doomed)[i] == x.id;
      }
    }
    IdList(doomed)
  }

  /** The legacy loop over the fetched list.  A date found in the map of
      stored records updates that record in place (its own `createdAt`
      passed back in); any other date is saved as a new record under
      `countryName`, and a rejected save is rethrown as it is.  The map is
      never shrunk.  Yields the store and the update and add counts. */
  function LegacyLoop(db: Db, index: map<Date, Row>, latest: seq<HolidayDto>, countryName: string,
                      now: Timestamp): (r: Result<(Db, int, int), Fault>)
    ensures r.Success? ==> r.value.1 + r.value.2 == |latest| && r.value.1 >= 0 && r.value.2 >= 0
    ensures r.Success? && Valid(db) ==> Valid(r.value.0)
    ensures r.Failure? ==> r.error == Unchecked(WriteRejected)
    ensures r.Failure? ==> exists i :: 0 <= i < |latest| && latest[i].date !in index && |latest[i].countryCode| > 2
    decreases |latest|
  {
    if |latest| == 0 then Success((db, 0, 0))
    else
      var dto := latest[0];
      assert forall i :: 1 <= i < |latest| ==> latest[i] == latest[1..][i - 1];
      if dto.date in index then
        var x := index[dto.date];
        Bump(LegacyLoop(ReplaceById(db, x.id, ApplyDto(x.holiday, dto, now)), index, latest[1..], countryName, now),
             Service.Updated)
      else
        var h := FromDto(dto, countryName, now);
        if !Accepts(h) then Failure(Unchecked(WriteRejected))
        else Bump(LegacyLoop(Save(db, h).0, index, latest[1..], countryName, now), Service.Added)
  }

  /** Counts one more update or add on a successful rest of the loop. */
  function Bump(r: Result<(Db, int, int), Fault>, kind: Service.StepKind): Result<(Db, int, int), Fault> {
    if r.Failure? then r
    else if kind == Service.Updated then Success((r.value.0, r.value.1 + 1, r.value.2))
    else Success((r.value.0, r.value.1, r.value.2 + 1))
  }

  /** One pass of the legacy loop, unfolded. */
  lemma LegacyLoopUnfold(db: Db, index: map<Date, Row>, latest: seq<HolidayDto>, countryName: string, now: Timestamp)
    requires |latest| > 0
    ensures var l := LegacyLoop(db, index, latest, countryName, now);
      var dto := latest[0];
      var h := FromDto(dto, countryName, now);
      && (dto.date in index ==>
            var x := index[dto.date];
            l == Bump(LegacyLoop(ReplaceById(db, x.id, ApplyDto(x.holiday, dto, now)), index, latest[1..], countryName, now),
                      Service.Updated))
      && (dto.date !in index && !Accepts(h) ==> l == Failure(Unchecked(WriteRejected)))
      && (dto.date !in index && Accepts(h) ==>
            l == Bump(LegacyLoop(Save(db, h).0, index, latest[1..], countryName, now), Service.Added))
  {
  }

  /** A run of the current loop as the legacy loop reports it: the store
      and the two counts, or the rethrown save failure. */
  function AsLegacy(c: Result<Service.LoopState, Fault>): Result<(Db, int, int), Fault> {
    match c
    case Success(st) => Success((st.db, st.updated, st.added))
    case Failure(_) => Failure(Unchecked(WriteRejected))
  }

  /** The current loop's way of counting one more step agrees with `Bump`. */
  lemma TallyAgrees(rest: Result<Service.LoopState, Fault>, kind: Service.StepKind)
    ensures AsLegacy(Service.Tally(rest, kind)) == Bump(AsLegacy(rest), kind)
  {
  }

  /** One successful step of the current loop, in the legacy loop's terms. */
  lemma ReconcileTally(db: Db, remaining: map<Date, Row>, latest: seq<HolidayDto>, countryName: string,
                       now: Timestamp, db1: Db, rem1: map<Date, Row>, kind: Service.StepKind)
    requires |latest| > 0
    requires Service.Step(db, remaining, latest[0], countryName, now) == Success((db1, rem1, kind))
    ensures AsLegacy(Service.Reconcile(db, remaining, latest, countryName, now))
         == Bump(AsLegacy(Service.Reconcile(db1, rem1, latest[1..], countryName, now)), kind)
  {
    Service.ReconcileUnfold(db, remaining, latest, countryName, now);
    TallyAgrees(Service.Reconcile(db1, rem1, latest[1..], countryName, now), kind);
  }

  /** A failed first step fails the current loop, which the legacy loop
      reports as the rethrown save failure. */
  lemma ReconcileTallyFails(db: Db, remaining: map<Date, Row>, latest: seq<HolidayDto>, countryName: string, now: Timestamp)
    requires |latest| > 0
    requires Service.Step(db, remaining, latest[0], countryName, now).Failure?
    ensures AsLegacy(Service.Reconcile(db, remaining, latest, countryName, now)) == Failure(Unchecked(WriteRejected))
  {
    Service.ReconcileUnfold(db, remaining, latest, countryName, now);
  }


  /** When no fetched date is in the map, every fetched holiday is added. */
  lemma {:induction false} LegacyLoopAddsAll(db: Db, index: map<Date, Row>, latest: seq<HolidayDto>,
                                             countryName: string, now: Timestamp)
    requires forall i :: 0 <= i < |latest| ==> latest[i].date !in index
    requires LegacyLoop(db, index, latest, countryName, now).Success?
    ensures LegacyLoop(db, index, latest, countryName, now).value.1 == 0
    decreases |latest|
  {
    if |latest| > 0 {
      LegacyLoopUnfold(db, index, latest, countryName, now);
      var h := FromDto(latest[0], countryName, now);
      assert forall i :: 0 <= i < |latest[1..]| ==> latest[1..][i] == latest[i + 1];
      LegacyLoopAddsAll(Save(db, h).0, index, latest[1..], countryName, now);
    }
  }

  /** The stored window the legacy sync reads: the form's code and name,
      dated in 2024. */
  function Window(db: Db, form: Service.UpdateForm): (w: seq<Row>)
    ensures forall x :: x in w <==> x in db.rows && InPartition(x.holiday, form.countryCode, form.countryName, GetYearRange(LegacyWindowYear))
  {
    Service.Partition(db, form.countryCode, form.countryName, LegacyWindowYear)
  }

  /** `updateHolidayList` (legacy).  In the order the code runs: read the
      2024 window, fetch the form's year, key the window by date, key the
      fetched list by date; then update or add per fetched holiday and
      batch-delete the window records whose date was not fetched.  A failed
      fetch, two window records or two fetched holidays sharing a date, a
      null body, or a rejected save each abort the transaction with an
      unchecked exception. */
  function UpdateHolidayList(db: Db, form: Service.UpdateForm, fetched: Fetch, now: Timestamp): (r: Result<(Db, Service.UpdateResult), Fault>)
    ensures r.Failure? ==> r.error.Unchecked?
    ensures fetched.CallFailed? ==> r == Failure(Unchecked(SourceFailure))
    ensures !fetched.CallFailed? && !Service.DistinctDates(Window(db, form)) ==> r == Failure(Unchecked(DuplicateKey))
    ensures fetched.NoBody? && Service.DistinctDates(Window(db, form)) ==> r == Failure(Unchecked(NullReference))
    ensures fetched.Fetched? && !DistinctFetchedDates(fetched.holidays) ==> r == Failure(Unchecked(DuplicateKey))
    ensures r.Success? ==>
      && fetched.Fetched?
      && r.value.1.updatedCount + r.value.1.addedCount == |fetched.holidays|
      && r.value.1.deletedCount <= |Window(db, form)|
      && (forall x :: x in Window(db, form) && x.holiday.date !in Service.FetchedDates(fetched.holidays) ==>
            x !in r.value.0.rows)
      && (Valid(db) ==> Valid(r.value.0))
  {
    var existing := Window(db, form);
    match fetched
    case CallFailed => Failure(Unchecked(SourceFailure))
    case NoBody =>
      if Service.DateIndex(existing).None? then Failure(Unchecked(DuplicateKey))
      else Failure(Unchecked(NullReference))
    case Fetched(latest) =>
      match Service.DateIndex(existing)
      case None => Failure(Unchecked(DuplicateKey))
      case Some(index) =>
        if !DistinctFetchedDates(latest) then Failure(Unchecked(DuplicateKey))
        else
          match LegacyLoop(db, index, latest, form.countryName, now)
          case Failure(e) => Failure(e)
          case Success((db1, updated, added)) =>
            var (db2, deleted) := DeleteUnfetched(db1, existing, Service.FetchedDates(latest));
            Success((db2, Service.UpdateResult(updated, added, deleted)))
  }

  /** The tail of the legacy sync: collect `idsToDelete` and, only when it
      is non-empty, batch-delete them; the count is the list's size. */
  function DeleteUnfetched(db: Db, existing: seq<Row>, fetched: set<Date>): (r: (Db, int))
    ensures 0 <= r.1 <= |existing|
    ensures r.1 == |Doomed(existing, fetched)|
    ensures r.1 == 0 ==> r.0 == db
    ensures forall x :: x in existing && x.holiday.date !in fetched ==> x !in r.0.rows
    ensures forall x :: x in r.0.rows <==> x in db.rows && x.id !in set k | k in DoomedIds(existing, fetched)
    ensures r.0.nextId == db.nextId
    ensures Valid(db) ==> Valid(r.0)
    ensures Valid(db) ==> forall k :: FindById(r.0, k) == if k in DoomedIds(existing, fetched) then None else FindById(db, k)
  {
    var ids := DoomedIds(existing, fetched);
    if |ids| == 0 then (db, 0)
    else (DeleteAllByIdInBatch(db, set k | k in ids), |ids|)
  }

  // ---------------------------------------------------------------------
  // The two reconcilers compared

  /** The two loops run side by side on one fetched list with distinct
      dates.  `remaining` is the part of the legacy map the current loop has
      not consumed yet: each of its rows is still stored as read, and every
      consumed date is absent from the rest of the list, so the legacy map
      lookup and the current one always take the same branch. */
  lemma {:induction false} LoopsAgree(db: Db, index: map<Date, Row>, remaining: map<Date, Row>,
                                      latest: seq<HolidayDto>, countryName: string, now: Timestamp)
    requires Valid(db) && DistinctFetchedDates(latest)
    requires forall d :: d in remaining ==> d in index && remaining[d] == index[d]
    requires forall d :: d in remaining ==> remaining[d] in db.rows && remaining[d].holiday.date == d
    requires forall d :: d in index && d !in remaining ==> d !in Service.FetchedDates(latest)
    ensures LegacyLoop(db, index, latest, countryName, now)
         == AsLegacy(Service.Reconcile(db, remaining, latest, countryName, now))
    decreases |latest|
  {
    if |latest| > 0 {
      TailFacts(latest);
      var dto := latest[0];
      var tail := latest[1..];
      LegacyLoopUnfold(db, index, latest, countryName, now);
      if dto.date in index {
        var x := index[dto.date];
        var db1 := ReplaceById(db, x.id, ApplyDto(x.holiday, dto, now));
        MatchedStepAgrees(db, index, remaining, dto, countryName, now);
        ReconcileTally(db, remaining, latest, countryName, now, db1, remaining - {dto.date}, Service.Updated);
        LoopsAgree(db1, index, remaining - {dto.date}, tail, countryName, now);
      } else {
        var h := FromDto(dto, countryName, now);
        assert dto.date !in remaining;
        if Accepts(h) {
          var db1 := Save(db, h).0;
          assert Service.Step(db, remaining, dto, countryName, now) == Success((db1, remaining, Service.Added));
          ReconcileTally(db, remaining, latest, countryName, now, db1, remaining, Service.Added);
          LoopsAgree(db1, index, remaining, tail, countryName, now);
        } else {
          assert Service.Step(db, remaining, dto, countryName, now).Failure?;
          ReconcileTallyFails(db, remaining, latest, countryName, now);
        }
      }
    }
  }

  /** A matched date: both loops write the same content to the same row,
      and every other unconsumed row is still stored as read. */
  lemma MatchedStepAgrees(db: Db, index: map<Date, Row>, remaining: map<Date, Row>, dto: HolidayDto,
                          countryName: string, now: Timestamp)
    requires Valid(db)
    requires forall d :: d in remaining ==> d in index && remaining[d] == index[d]
    requires forall d :: d in remaining ==> remaining[d] in db.rows && remaining[d].holiday.date == d
    requires dto.date in remaining
    ensures var x := index[dto.date];
      var db1 := ReplaceById(db, x.id, ApplyDto(x.holiday, dto, now));
      && Service.Step(db, remaining, dto, countryName, now) == Success((db1, remaining - {dto.date}, Service.Updated))
      && Valid(db1)
      && forall e :: e in remaining - {dto.date} ==> remaining[e] in db1.rows
  {
    var x := index[dto.date];
    FindByIdOfRow(db, x);
    var db1 := ReplaceById(db, x.id, ApplyDto(x.holiday, dto, now));
    forall e | e in remaining - {dto.date} ensures remaining[e] in db1.rows {
      DistinctRowsDistinctIds(db, remaining[e], x);
    }
  }

  lemma DistinctRowsDistinctIds(db: Db, x: Row, y: Row)
    requires Valid(db) && x in db.rows && y in db.rows && x != y
    ensures x.id != y.id
  {
    var i :| 0 <= i < |db.rows| && db.rows[i] == x;
    var j :| 0 <= j < |db.rows| && db.rows[j] == y;
    assert i != j;
  }

  /** The rest of a fetched list with distinct dates has distinct dates
      and no longer holds the first one. */
  lemma TailFacts(latest: seq<HolidayDto>)
    requires |latest| > 0 && DistinctFetchedDates(latest)
    ensures DistinctFetchedDates(latest[1..])
    ensures latest[0].date in Service.FetchedDates(latest)
    ensures latest[0].date !in Service.FetchedDates(latest[1..])
    ensures Service.FetchedDates(latest[1..]) <= Service.FetchedDates(latest)
  {
    var tail := latest[1..];
    assert forall j :: 0 <= j < |tail| ==> tail[j] == latest[j + 1];
    assert latest[0] in latest;
    forall e | e in tail ensures e in latest && e.date != latest[0].date {
      var j :| 0 <= j < |tail| && tail[j] == e;
    }
  }

  /** The dates of the records a sync would delete. */
  function UnfetchedDates(rows: seq<Row>, fetched: set<Date>): set<Date> {
    set x | x in rows && x.holiday.date !in fetched :: x.holiday.date
  }

  lemma UnfetchedDatesCons(rows: seq<Row>, fetched: set<Date>)
    requires |rows| > 0
    ensures var d0 := rows[0].holiday.date;
      UnfetchedDates(rows, fetched)
      == (if d0 !in fetched then {d0} else {}) + UnfetchedDates(rows[1..], fetched)
  {
    assert forall x :: x in rows <==> x == rows[0] || x in rows[1..];
  }

  lemma DistinctTail(rows: seq<Row>)
    requires |rows| > 0 && Service.DistinctDates(rows)
    ensures Service.DistinctDates(rows[1..])
    ensures rows[0].holiday.date !in (set x | x in rows[1..] :: x.holiday.date)
  {
    var t := rows[1..];
    forall i, j | 0 <= i < j < |t| ensures t[i].holiday.date != t[j].holiday.date {
      assert t[i] == rows[i + 1] && t[j] == rows[j + 1];
    }
    forall x | x in t ensures x.holiday.date != rows[0].holiday.date {
      var k :| 0 <= k < |t| && t[k] == x;
      assert rows[k + 1] == x;
    }
  }

  /** With distinct dates, the doomed records are as many as their dates. */
  lemma {:induction false} DoomedCard(rows: seq<Row>, fetched: set<Date>)
    requires Service.DistinctDates(rows)
    ensures |Doomed(rows, fetched)| == |UnfetchedDates(rows, fetched)|
  {
    if |rows| > 0 {
      DistinctTail(rows);
      DoomedCard(rows[1..], fetched);
      UnfetchedDatesCons(rows, fetched);
      assert rows[0].holiday.date !in UnfetchedDates(rows[1..], fetched);
    }
  }

  /** The legacy `idsToDelete` and the ids the current loop leaves unmatched
      are the same ids, equally many. */
  lemma DoomedAreRemaining(existing: seq<Row>, index: map<Date, Row>, fetched: set<Date>, rem: map<Date, Row>)
    requires Service.DistinctDates(existing) && Service.IndexOf(index, existing)
    requires forall d :: d in rem <==> d in index && d !in fetched
    requires forall d :: d in rem ==> rem[d] == index[d]
    ensures (set k | k in DoomedIds(existing, fetched)) == Service.IdsOf(rem)
    ensures |DoomedIds(existing, fetched)| == |rem|
  {
    var ids := DoomedIds(existing, fetched);
    forall k ensures k in ids <==> k in Service.IdsOf(rem) {
      if k in ids {
        var x :| x in existing && x.holiday.date !in fetched && x.id == k;
        assert rem[x.holiday.date] == x;
      }
      if k in Service.IdsOf(rem) {
        var d :| d in rem && rem[d].id == k;
        assert index[d] in existing;
      }
    }
    DoomedCard(existing, fetched);
    var dates := UnfetchedDates(existing, fetched);
    assert dates == rem.Keys by {
      forall d | d in rem ensures d in dates {
        assert index[d] in existing;
      }
    }
  }

  /** Run on the same fetched list with distinct dates, the legacy sync of
      any form and the current reconciliation of that form's 2024 window
      produce the same store and the same three counts, and fail together
      (with different exceptions). */
  lemma LegacyAgreesWithCurrent(db: Db, form: Service.UpdateForm, latest: seq<HolidayDto>, now: Timestamp)
    requires Valid(db) && DistinctFetchedDates(latest)
    ensures var l := UpdateHolidayList(db, form, Fetched(latest), now);
      var c := Service.UpdateHolidayDataInTransaction(db, form.(year := LegacyWindowYear), Some(latest), now);
      && (l.Success? <==> c.Success?)
      && (l.Success? ==> l.value == c.value)
  {
    var form' := form.(year := LegacyWindowYear);
    var existing := Window(db, form);
    assert existing == Service.Partition(db, form'.countryCode, form'.countryName, form'.year);
    match Service.DateIndex(existing)
    case None =>
    case Some(index) =>
      Service.IndexOfPartition(db, form', existing, index);
      LoopsAgree(db, index, index, latest, form.countryName, now);
      var c := Service.Reconcile(db, index, latest, form.countryName, now);
      if c.Success? {
        Service.ReconcileConsumes(db, index, latest, form.countryName, now);
        Service.ReconcileKeepsUnfetched(db, index, latest, form.countryName, now);
        var rem := c.value.remaining;
        var fetched := Service.FetchedDates(latest);
        forall d ensures d in rem <==> d in index && d !in fetched {
          if d in fetched {
            var e :| e in latest && e.date == d;
            var i :| 0 <= i < |latest| && latest[i] == e;
          }
        }
        DoomedAreRemaining(existing, index, fetched, rem);
      }
  }

  /** What a successful legacy sync leaves under each id: the record of
      every window date that was fetched holds that fetched holiday applied
      to it, and the fetched holidays of the other dates are new records
      under the form's name, in fetch order, under the next sequence
      values. */
  lemma LegacyWritesFetched(db: Db, form: Service.UpdateForm, latest: seq<HolidayDto>, now: Timestamp)
    requires Valid(db)
    requires UpdateHolidayList(db, form, Fetched(latest), now).Success?
    ensures var db' := UpdateHolidayList(db, form, Fetched(latest), now).value.0;
      var window := Window(db, form);
      var adds := Service.Unmatched(Service.WindowDates(window), latest);
      && (forall dto :: dto in adds <==> dto in latest && dto.date !in Service.WindowDates(window))
      && db'.nextId == db.nextId + |adds|
      && Service.AddsWritten(db', db.nextId, adds, form.countryName, now)
      && (forall i, x :: 0 <= i < |latest| && x in window && x.holiday.date == latest[i].date ==>
            FindById(db', x.id) == Some(ApplyDto(x.holiday, latest[i], now)))
  {
    var form' := form.(year := LegacyWindowYear);
    assert Window(db, form) == Service.Partition(db, form'.countryCode, form'.countryName, form'.year);
    LegacyAgreesWithCurrent(db, form, latest, now);
    Service.UpdateWritesFetched(db, form', latest, now);
    UnmatchedOfDistinct(Service.WindowDates(Window(db, form)), latest);
    var db' := UpdateHolidayList(db, form, Fetched(latest), now).value.0;
    forall i, x | 0 <= i < |latest| && x in Window(db, form) && x.holiday.date == latest[i].date
      ensures FindById(db', x.id) == Some(ApplyDto(x.holiday, latest[i], now))
    {
      assert Service.FirstOfDate(latest, i);
    }
  }

  /** With distinct fetched dates nothing is consumed twice: the holidays
      the loop adds are exactly those whose date has no index entry. */
  lemma {:induction false} UnmatchedOfDistinct(keys: set<Date>, latest: seq<HolidayDto>)
    requires DistinctFetchedDates(latest)
    ensures forall dto :: dto in Service.Unmatched(keys, latest) <==> dto in latest && dto.date !in keys
    decreases |latest|
  {
    if |latest| > 0 {
      TailFacts(latest);
      var d0 := latest[0].date;
      var keys' := if d0 in keys then keys - {d0} else keys;
      UnmatchedOfDistinct(keys', latest[1..]);
      forall dto | dto in latest[1..] ensures dto.date != d0 {
        var i :| 0 <= i < |latest[1..]| && latest[1..][i] == dto;
        assert latest[i + 1] == dto;
      }
      assert latest == [latest[0]] + latest[1..];
    }
  }

  /** For a 2024 form the legacy sync does what the current one does. */
  lemma LegacyAgreesIn2024(db: Db, form: Service.UpdateForm, latest: seq<HolidayDto>, now: Timestamp)
    requires Valid(db) && DistinctFetchedDates(latest) && form.year == 2024
    ensures var l := UpdateHolidayList(db, form, Fetched(latest), now);
      var c := Service.UpdateHolidayList(db, form, Fetched(latest), now);
      && (l.Success? <==> c.Success?)
      && (l.Success? ==> l.value == c.value)
  {
    LegacyAgreesWithCurrent(db, form, latest, now);
    assert form.(year := LegacyWindowYear) == form;
  }

  /** The count identities of the legacy sync: every fetched holiday is
      counted once as updated or added, every stored window record once as
      updated or deleted. */
  lemma LegacyCountIdentities(db: Db, form: Service.UpdateForm, latest: seq<HolidayDto>, now: Timestamp)
    requires Valid(db)
    requires UpdateHolidayList(db, form, Fetched(latest), now).Success?
    ensures var res := UpdateHolidayList(db, form, Fetched(latest), now).value.1;
      && res.updatedCount + res.addedCount == |latest|
      && res.updatedCount + res.deletedCount == |Window(db, form)|
  {
    LegacyAgreesWithCurrent(db, form, latest, now);
  }

  /** The hard-coded window as written: syncing any year other than 2024
      reconciles the fetched holidays against the stored 2024 records, so
      every fetched holiday is added and every stored 2024 record of the
      form's code and name is deleted. */
  lemma LegacySyncWipesWindow(db: Db, form: Service.UpdateForm, latest: seq<HolidayDto>, now: Timestamp)
    requires form.year != LegacyWindowYear
    requires forall i :: 0 <= i < |latest| ==> latest[i].date.year == form.year
    requires UpdateHolidayList(db, form, Fetched(latest), now).Success?
    ensures var (db', res) := UpdateHolidayList(db, form, Fetched(latest), now).value;
      && res.updatedCount == 0
      && res.addedCount == |latest|
      && res.deletedCount == |Window(db, form)|
      && forall x :: x in Window(db, form) ==> x !in db'.rows
  {
    var existing := Window(db, form);
    var index := Service.DateIndex(existing).value;
    WindowIsLegacyYear(db, form);
    forall d | d in index ensures d.year == LegacyWindowYear {
      assert index[d] in existing;
    }
    LegacyLoopAddsAll(db, index, latest, form.countryName, now);
    FetchedDatesInYear(latest, form.year);
  }

  lemma WindowIsLegacyYear(db: Db, form: Service.UpdateForm)
    ensures forall x :: x in Window(db, form) ==> x.holiday.date.year == LegacyWindowYear
  {
    forall x | x in Window(db, form) ensures x.holiday.date.year == LegacyWindowYear {
      assert InRange(x.holiday.date, GetYearRange(LegacyWindowYear));
    }
  }

  lemma FetchedDatesInYear(latest: seq<HolidayDto>, year: int)
    requires forall i :: 0 <= i < |latest| ==> latest[i].date.year == year
    ensures forall d :: d in Service.FetchedDates(latest) ==> d.year == year
  {
    forall d | d in Service.FetchedDates(latest) ensures d.year == year {
      var e :| e in latest && e.date == d;
      var i :| 0 <= i < |latest| && latest[i] == e;
    }
  }
}
