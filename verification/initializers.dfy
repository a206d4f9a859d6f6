/** The two cold-load drivers, run one call at a time.

    `HolidayDataInitializerAsync` collects every (country, year) of the grid
    and hands the whole list to the current service's bulk save;
    `HolidayDataInitializer` collects per country and calls the legacy
    `saveHolidayList` once per country.  The remote source is the function
    `source`; the country list is `None` when its call failed. */
module Initializers {
  import opened Wrappers
  import opened Entity
  import opened Store
  import opened Client
  import opened CountryList
  import Service
  import LegacyService

  /** `IntStream.rangeClosed(startYear, endYear)`, also the years of
      `Flux.range(startYear, endYear - startYear + 1)` when that count is
      not negative. */
  function YearsClosed(startYear: int, endYear: int): (ys: seq<int>)
    ensures |ys| == if endYear < startYear then 0 else endYear - startYear + 1
    ensures forall i :: 0 <= i < |ys| ==> ys[i] == startYear + i
  {
    if endYear < startYear then [] else seq(endYear - startYear + 1, i => startYear + i)
  }

  /** What one year contributes: its list, or nothing when the call failed
      or returned no body. */
  function Harvest(f: Fetch): seq<HolidayDto> {
    if f.Fetched? then f.holidays else []
  }

  /** One country's holidays: the years' contributions in year order. */
  function CountryHolidays(source: Source, code: string, years: seq<int>): seq<HolidayDto> {
    if |years| == 0 then []
    else CountryHolidays(source, code, years[..|years| - 1]) + Harvest(source(code, years[|years| - 1]))
  }

  /** Every country's holidays, in country order. */
  function AllHolidays(source: Source, cs: seq<Country>, years: seq<int>): seq<HolidayDto> {
    if |cs| == 0 then []
    else AllHolidays(source, cs[..|cs| - 1], years) + CountryHolidays(source, cs[|cs| - 1].countryCode, years)
  }

  /** The (code, year) calls for one country, in year order. */
  function Pairs(code: string, years: seq<int>): seq<(string, int)> {
    if |years| == 0 then [] else Pairs(code, years[..|years| - 1]) + [(code, years[|years| - 1])]
  }

  /** The (code, year) calls for every country: the full grid. */
  function Grid(cs: seq<Country>, years: seq<int>): seq<(string, int)> {
    if |cs| == 0 then [] else Grid(cs[..|cs| - 1], years) + Pairs(cs[|cs| - 1].countryCode, years)
  }

  lemma {:induction false} PairsMeaning(code: string, years: seq<int>)
    ensures |Pairs(code, years)| == |years|
    ensures forall j :: 0 <= j < |years| ==> Pairs(code, years)[j] == (code, years[j])
  {
    if |years| > 0 {
      PairsMeaning(code, years[..|years| - 1]);
    }
  }

  lemma {:induction false} GridSize(cs: seq<Country>, years: seq<int>)
    ensures |Grid(cs, years)| == |cs| * |years|
  {
    if |cs| > 0 {
      var n, m := |cs|, |years|;
      GridSize(cs[..n - 1], years);
      PairsMeaning(cs[n - 1].countryCode, years);
      assert |Grid(cs, years)| == (n - 1) * m + m;
      assert (n - 1) * m + m == n * m;
    }
  }

  /** Every call of the grid pairs a listed country's code with a listed
      year. */
  lemma {:induction false} GridSound(cs: seq<Country>, years: seq<int>, p: (string, int))
    requires p in Grid(cs, years)
    ensures exists i, j :: 0 <= i < |cs| && 0 <= j < |years| && p == (cs[i].countryCode, years[j])
  {
    var front := cs[..|cs| - 1];
    PairsMeaning(cs[|cs| - 1].countryCode, years);
    if p in Grid(front, years) {
      GridSound(front, years, p);
      var i, j :| 0 <= i < |front| && 0 <= j < |years| && p == (front[i].countryCode, years[j]);
      assert cs[i] == front[i];
    } else {
      var j :| 0 <= j < |years| && Pairs(cs[|cs| - 1].countryCode, years)[j] == p;
      assert p == (cs[|cs| - 1].countryCode, years[j]);
    }
  }

  /** Every listed country is called for every listed year. */
  lemma {:induction false} GridComplete(cs: seq<Country>, years: seq<int>, i: int, j: int)
    requires 0 <= i < |cs| && 0 <= j < |years|
    ensures (cs[i].countryCode, years[j]) in Grid(cs, years)
  {
    var front := cs[..|cs| - 1];
    if i < |cs| - 1 {
      GridComplete(front, years, i, j);
      assert front[i] == cs[i];
    } else {
      PairsMeaning(cs[i].countryCode, years);
      assert Pairs(cs[i].countryCode, years)[j] == (cs[i].countryCode, years[j]);
    }
  }

  /** A holiday is collected exactly when some grid call returned it. */
  lemma {:induction false} AllHolidaysMeaning(source: Source, cs: seq<Country>, years: seq<int>)
    ensures forall dto :: dto in AllHolidays(source, cs, years) <==>
      exists i, j :: 0 <= i < |cs| && 0 <= j < |years| && dto in Harvest(source(cs[i].countryCode, years[j]))
  {
    if |cs| > 0 {
      var front := cs[..|cs| - 1];
      var c := cs[|cs| - 1];
      AllHolidaysMeaning(source, front, years);
      CountryHolidaysMeaning(source, c.countryCode, years);
      forall dto | dto in AllHolidays(source, cs, years)
        ensures exists i, j :: 0 <= i < |cs| && 0 <= j < |years| && dto in Harvest(source(cs[i].countryCode, years[j]))
      {
        if dto in AllHolidays(source, front, years) {
          var i, j :| 0 <= i < |front| && 0 <= j < |years| && dto in Harvest(source(front[i].countryCode, years[j]));
          assert cs[i] == front[i];
        } else {
          var j :| 0 <= j < |years| && dto in Harvest(source(c.countryCode, years[j]));
          assert cs[|cs| - 1] == c;
        }
      }
      forall dto | exists i, j :: 0 <= i < |cs| && 0 <= j < |years| && dto in Harvest(source(cs[i].countryCode, years[j]))
        ensures dto in AllHolidays(source, cs, years)
      {
        var i, j :| 0 <= i < |cs| && 0 <= j < |years| && dto in Harvest(source(cs[i].countryCode, years[j]));
        if i < |cs| - 1 {
          assert front[i] == cs[i];
        }
      }
    }
  }

  /** A holiday is in a country's list exactly when one of its years
      returned it. */
  lemma {:induction false} CountryHolidaysMeaning(source: Source, code: string, years: seq<int>)
    ensures forall dto :: dto in CountryHolidays(source, code, years) <==>
      exists j :: 0 <= j < |years| && dto in Harvest(source(code, years[j]))
  {
    if |years| > 0 {
      var front := years[..|years| - 1];
      CountryHolidaysMeaning(source, code, front);
      forall dto | exists j :: 0 <= j < |years| && dto in Harvest(source(code, years[j]))
        ensures dto in CountryHolidays(source, code, years)
      {
        var j :| 0 <= j < |years| && dto in Harvest(source(code, years[j]));
        if j < |years| - 1 {
          assert front[j] == years[j];
        }
      }
    }
  }

  /** One country's years fetched in ascending order, each failed year
      contributing nothing. */
  method CollectCountry(source: Source, code: string, years: seq<int>)
    returns (list: seq<HolidayDto>, calls: seq<(string, int)>)
    ensures list == CountryHolidays(source, code, years)
    ensures calls == Pairs(code, years)
  {
    list := [];
    calls := [];
    var j := 0;
    while j < |years|
      invariant 0 <= j <= |years|
      invariant list == CountryHolidays(source, code, years[..j])
      invariant calls == Pairs(code, years[..j])
    {
      assert years[..j + 1][..j] == years[..j];
      list := list + Harvest(source(code, years[j]));
      calls := calls + [(code, years[j])];
      j := j + 1;
    }
    assert years[..j] == years;
  }

  /** The collection phase of `collectAllHolidaysAsync`: every country, and
      for each every year, fetched once; a failed call adds nothing and the
      run goes on. */
  method CollectAllHolidays(source: Source, cs: seq<Country>, years: seq<int>)
    returns (all: seq<HolidayDto>, calls: seq<(string, int)>)
    ensures all == AllHolidays(source, cs, years)
    ensures calls == Grid(cs, years)
  {
    all := [];
    calls := [];
    var i := 0;
    while i < |cs|
      invariant 0 <= i <= |cs|
      invariant all == AllHolidays(source, cs[..i], years)
      invariant calls == Grid(cs[..i], years)
    {
      var mine, mineCalls := CollectCountry(source, cs[i].countryCode, years);
      assert cs[..i + 1][..i] == cs[..i];
      all := all + mine;
      calls := calls + mineCalls;
      i := i + 1;
    }
    assert cs[..i] == cs;
  }

  /** How the asynchronous cold load ends. */
  datatype AsyncOutcome =
    | Saved(total: int)   // the size of the list the bulk save returned
    | Aborted             // an exception reached `run`, which logged it

  /** `HolidayDataInitializerAsync.run`.  No countries gives 0 with no
      call.  A negative year count makes `Flux.range` throw on the first
      country, before any fetch, and the run is aborted.  Otherwise every
      grid call is made; nothing collected gives 0 without a save; else
      the collected list goes to the bulk save with the first-name map, and
      the total is the size of the list it returns or, if it throws, the
      run is aborted with the store unchanged. */
  method InitializeAsync(db: Db, countries: Option<seq<Country>>, source: Source,
                         startYear: int, endYear: int, now: Timestamp)
    returns (db': Db, outcome: AsyncOutcome, calls: seq<(string, int)>)
    ensures var cs := CountriesOrEmpty(countries);
      |cs| == 0 ==> db' == db && outcome == Saved(0) && calls == []
    ensures var cs := CountriesOrEmpty(countries);
      |cs| > 0 && endYear - startYear + 1 < 0 ==> db' == db && outcome == Aborted && calls == []
    ensures var cs := CountriesOrEmpty(countries);
      |cs| > 0 && endYear - startYear + 1 >= 0 ==> calls == Grid(cs, YearsClosed(startYear, endYear))
    ensures var cs := CountriesOrEmpty(countries);
      var all := AllHolidays(source, cs, YearsClosed(startYear, endYear));
      |cs| > 0 && endYear - startYear + 1 >= 0 ==>
        && (|all| == 0 ==> db' == db && outcome == Saved(0))
        && (|all| > 0 ==>
              var r := Service.SaveAllHolidaysBulk(db, Some(all), CountryNameMap(cs), now);
              && (r.Failure? ==> db' == db && outcome == Aborted)
              && (r.Success? ==> db' == r.value.0 && outcome == Saved(|all|)))
    ensures outcome.Saved? ==> outcome.total >= 0
    ensures outcome.Aborted? ==> db' == db
  {
    var cs := CountriesOrEmpty(countries);
    if |cs| == 0 {
      return db, Saved(0), [];
    }
    var names := CountryNameMap(cs);
    if endYear - startYear + 1 < 0 {
      return db, Aborted, [];
    }
    var all;
    all, calls := CollectAllHolidays(source, cs, YearsClosed(startYear, endYear));
    if |all| == 0 {
      return db, Saved(0), calls;
    }
    match Service.SaveAllHolidaysBulk(db, Some(all), names, now)
    case Failure(_) =>
      db', outcome := db, Aborted;
    case Success((db2, saved)) =>
      db', outcome := db2, Saved(|saved|);
  }

  /** A successful asynchronous load appends one row per collected holiday
      after the existing ones, so nothing stored before is lost, and the
      reported total counts every collected holiday. */
  lemma InitializeAsyncAppends(db: Db, cs: seq<Country>, source: Source, years: seq<int>, now: Timestamp)
    requires |AllHolidays(source, cs, years)| > 0
    requires Service.SaveAllHolidaysBulk(db, Some(AllHolidays(source, cs, years)), CountryNameMap(cs), now).Success?
    ensures var all := AllHolidays(source, cs, years);
      var (db', out) := Service.SaveAllHolidaysBulk(db, Some(all), CountryNameMap(cs), now).value;
      && |out| == |all|
      && |db'.rows| == |db.rows| + |all|
      && db'.rows[..|db.rows|] == db.rows
      && (Valid(db) ==> Valid(db'))
  {
  }

  // ---------------------------------------------------------------------
  // HolidayDataInitializer (synchronous, legacy service)

  /** The `saveHolidayList` calls of a run, each followed by the next on the
      store it left; a call that throws is caught and leaves the store as
      it was. */
  function SaveEach(db: Db, saves: seq<(string, seq<HolidayDto>)>, now: Timestamp): Db {
    if |saves| == 0 then db
    else SaveOne(SaveEach(db, saves[..|saves| - 1], now), saves[|saves| - 1].0, saves[|saves| - 1].1, now)
  }

  /** One country's `saveHolidayList` inside the run's per-country
      `try`: a failure is logged and leaves the store as it was. */
  function SaveOne(db: Db, name: string, list: seq<HolidayDto>, now: Timestamp): Db {
    match LegacyService.SaveHolidayList(db, name, Some(list), now)
    case Success(after) => after
    case Failure(_) => db
  }

  lemma SaveEachSnoc(db: Db, saves: seq<(string, seq<HolidayDto>)>, name: string,
                     list: seq<HolidayDto>, now: Timestamp)
    ensures SaveEach(db, saves + [(name, list)], now) == SaveOne(SaveEach(db, saves, now), name, list, now)
  {
    assert (saves + [(name, list)])[..|saves|] == saves;
  }

  /** The per-country saves of a run never lose a stored row: the old rows
      stay in front, and a consistent store stays consistent. */
  lemma SaveOneKeepsRows(db: Db, name: string, list: seq<HolidayDto>, now: Timestamp)
    ensures |SaveOne(db, name, list, now).rows| >= |db.rows|
    ensures SaveOne(db, name, list, now).rows[..|db.rows|] == db.rows
    ensures Valid(db) ==> Valid(SaveOne(db, name, list, now))
  {
  }

  lemma {:induction false} SaveEachKeepsRows(db: Db, saves: seq<(string, seq<HolidayDto>)>, now: Timestamp)
    ensures |SaveEach(db, saves, now).rows| >= |db.rows|
    ensures SaveEach(db, saves, now).rows[..|db.rows|] == db.rows
    ensures Valid(db) ==> Valid(SaveEach(db, saves, now))
  {
    if |saves| > 0 {
      var before := SaveEach(db, saves[..|saves| - 1], now);
      SaveEachKeepsRows(db, saves[..|saves| - 1], now);
      SaveOneKeepsRows(before, saves[|saves| - 1].0, saves[|saves| - 1].1, now);
      var after := SaveEach(db, saves, now);
      assert after.rows[..|db.rows|] == after.rows[..|before.rows|][..|db.rows|];
    }
  }

  /** `HolidayDataInitializer.run`: countries in list order; for each, the
      years `startYear..endYear` in ascending order, failed years skipped,
      and one `saveHolidayList` call with the country's own name and the
      concatenated list.  A country whose save throws is skipped. */
  method InitializeSync(db: Db, countries: Option<seq<Country>>, source: Source,
                        startYear: int, endYear: int, now: Timestamp)
    returns (db': Db, saves: seq<(string, seq<HolidayDto>)>)
    ensures var cs := CountriesOrEmpty(countries);
      && |saves| == |cs|
      && (forall i :: 0 <= i < |cs| ==>
            saves[i] == (cs[i].name, CountryHolidays(source, cs[i].countryCode, YearsClosed(startYear, endYear))))
    ensures db' == SaveEach(db, saves, now)
    ensures |CountriesOrEmpty(countries)| == 0 ==> db' == db && saves == []
  {
    var cs := CountriesOrEmpty(countries);
    var years := YearsClosed(startYear, endYear);
    db' := db;
    saves := [];
    var i := 0;
    while i < |cs|
      invariant 0 <= i <= |cs|
      invariant |saves| == i
      invariant forall k :: 0 <= k < i ==> saves[k] == (cs[k].name, CountryHolidays(source, cs[k].countryCode, years))
      invariant db' == SaveEach(db, saves, now)
    {
      var list, _ := CollectCountry(source, cs[i].countryCode, years);
      SaveEachSnoc(db, saves, cs[i].name, list, now);
      db' := SaveOne(db', cs[i].name, list, now);
      saves := saves + [(cs[i].name, list)];
      i := i + 1;
    }
  }
}
