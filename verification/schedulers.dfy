/** The two yearly re-synchronisation jobs.  Both call the current
    service's `updateHolidayList` for every listed country and for the
    previous and the current year, one call at a time in list order; a
    failing call is caught and the job goes on.  The asynchronous job takes
    the name from the first-name map and counts the countries whose two
    years both succeeded; the synchronous one uses each country's own name
    and counts nothing. */
module Schedulers {
  import opened Wrappers
  import opened DateUtils
  import opened Entity
  import opened Store
  import opened Client
  import opened CountryList
  import Service

  /** One `updateHolidayList` call inside its caller's `try`: the store it
      leaves and whether it returned normally.  The client is `source`. */
  function SyncYear(db: Db, form: Service.UpdateForm, source: Source, now: Timestamp): (Db, bool) {
    match Service.UpdateHolidayList(db, form, source(form.countryCode, form.year), now)
    case Success((db', _)) => (db', true)
    case Failure(_) => (db, false)
  }

  /** How a job makes one call: the store after it and whether it
      returned normally. */
  type Caller = (Db, Service.UpdateForm) -> (Db, bool)

  /** The jobs' caller: `updateHolidayList` against `source` at `now`. */
  function Calls(source: Source, now: Timestamp): Caller {
    (d: Db, f: Service.UpdateForm) => SyncYear(d, f, source, now)
  }

  /** The calls of a run, each on the store the previous one left, with
      one success flag per call. */
  function RunForms(db: Db, forms: seq<Service.UpdateForm>, call: Caller): (r: (Db, seq<bool>))
    ensures |r.1| == |forms|
  {
    if |forms| == 0 then (db, [])
    else
      var before := RunForms(db, forms[..|forms| - 1], call);
      var last := call(before.0, forms[|forms| - 1]);
      (last.0, before.1 + [last.1])
  }

  lemma RunFormsSnoc(db: Db, forms: seq<Service.UpdateForm>, form: Service.UpdateForm, call: Caller)
    ensures var before := RunForms(db, forms, call);
      var last := call(before.0, form);
      RunForms(db, forms + [form], call) == (last.0, before.1 + [last.1])
  {
    assert (forms + [form])[..|forms|] == forms;
  }

  /** No call of the run is for `year`. */
  predicate YearUntouched(forms: seq<Service.UpdateForm>, year: int) {
    forall k :: 0 <= k < |forms| ==> forms[k].year != year
  }

  /** One call keeps a consistent store consistent and keeps every
      stored holiday dated in another year. */
  lemma SyncYearKeepsOtherYears(db: Db, form: Service.UpdateForm, source: Source, now: Timestamp)
    requires Valid(db)
    ensures Valid(SyncYear(db, form, source, now).0)
    ensures forall x ::
              x in db.rows && ValidDate(x.holiday.date) && x.holiday.date.year != form.year
              ==> x in SyncYear(db, form, source, now).0.rows
  {
    if Service.UpdateHolidayList(db, form, source(form.countryCode, form.year), now).Success? {
      Service.UpdateHolidayListKeepsOtherYears(db, form, source(form.countryCode, form.year), now);
    }
  }

  /** A run never touches a stored holiday dated in a year none of its
      calls is for, and keeps a consistent store consistent. */
  lemma {:induction false} RunFormsKeepsOtherYears(db: Db, forms: seq<Service.UpdateForm>, source: Source, now: Timestamp)
    requires Valid(db)
    ensures Valid(RunForms(db, forms, Calls(source, now)).0)
    ensures forall x ::
              x in db.rows && ValidDate(x.holiday.date) && YearUntouched(forms, x.holiday.date.year)
              ==> x in RunForms(db, forms, Calls(source, now)).0.rows
  {
    if |forms| > 0 {
      var front := forms[..|forms| - 1];
      var form := forms[|forms| - 1];
      RunFormsKeepsOtherYears(db, front, source, now);
      var before := RunForms(db, front, Calls(source, now)).0;
      SyncYearKeepsOtherYears(before, form, source, now);
      assert RunForms(db, forms, Calls(source, now)).0 == SyncYear(before, form, source, now).0;
      forall x | x in db.rows && ValidDate(x.holiday.date) && YearUntouched(forms, x.holiday.date.year)
        ensures x in RunForms(db, forms, Calls(source, now)).0.rows
      {
        assert YearUntouched(front, x.holiday.date.year) by {
          forall k | 0 <= k < |front| ensures front[k].year != x.holiday.date.year {
            assert front[k] == forms[k];
          }
        }
        assert forms[|forms| - 1] == form;
      }
    }
  }

  /** The number of consecutive (previous year, current year) pairs of
      flags that are both set. */
  function CountBoth(flags: seq<bool>): (n: int)
    ensures 0 <= n && 2 * n <= |flags|
  {
    if |flags| < 2 then 0
    else CountBoth(flags[..|flags| - 2]) + (if flags[|flags| - 2] && flags[|flags| - 1] then 1 else 0)
  }

  lemma CountBothSnoc(flags: seq<bool>, a: bool, b: bool)
    ensures CountBoth(flags + [a, b]) == CountBoth(flags) + if a && b then 1 else 0
  {
    assert (flags + [a, b])[..|flags|] == flags;
  }

  /** Every country counts exactly when every call succeeded. */
  lemma {:induction false} CountBothAll(flags: seq<bool>)
    requires |flags| % 2 == 0
    ensures 2 * CountBoth(flags) == |flags| <==> forall k :: 0 <= k < |flags| ==> flags[k]
  {
    if |flags| >= 2 {
      var front := flags[..|flags| - 2];
      CountBothAll(front);
      if forall k :: 0 <= k < |flags| ==> flags[k] {
        assert forall k :: 0 <= k < |front| ==> front[k] == flags[k];
      }
      if 2 * CountBoth(flags) == |flags| {
        assert 2 * CountBoth(front) == |front|;
        forall k | 0 <= k < |flags| ensures flags[k] {
          if k < |front| {
            assert front[k] == flags[k];
          }
        }
      }
    }
  }

  /** Two more calls extend the run by their stores and their flags. */
  lemma RunFormsPair(db: Db, forms: seq<Service.UpdateForm>, a: Service.UpdateForm, b: Service.UpdateForm,
                     call: Caller, s1: (Db, bool), s2: (Db, bool))
    requires s1 == call(RunForms(db, forms, call).0, a)
    requires s2 == call(s1.0, b)
    ensures RunForms(db, forms + [a, b], call) == (s2.0, RunForms(db, forms, call).1 + [s1.1, s2.1])
  {
    RunFormsSnoc(db, forms, a, call);
    RunFormsSnoc(db, forms + [a], b, call);
    assert forms + [a] + [b] == forms + [a, b];
    var flags := RunForms(db, forms, call).1;
    assert flags + [s1.1] + [s2.1] == flags + [s1.1, s2.1];
  }

  /** The calls a job makes: every country in list order, each for
      `previousYear` and then `currentYear`, the `i`-th country under
      `names[i]`. */
  function Plan(cs: seq<Country>, names: seq<string>, previousYear: int, currentYear: int): (forms: seq<Service.UpdateForm>)
    requires |names| == |cs|
    ensures |forms| == 2 * |cs|
  {
    if |cs| == 0 then []
    else
      var i := |cs| - 1;
      Plan(cs[..i], names[..i], previousYear, currentYear)
        + [Service.UpdateForm(cs[i].countryCode, names[i], previousYear),
           Service.UpdateForm(cs[i].countryCode, names[i], currentYear)]
  }

  /** Calls `2i` and `2i + 1` are country `i`'s, for the previous and the
      current year, under `names[i]`. */
  lemma {:induction false} PlanMeaning(cs: seq<Country>, names: seq<string>, previousYear: int, currentYear: int, i: int)
    requires |names| == |cs| && 0 <= i < |cs|
    ensures Plan(cs, names, previousYear, currentYear)[2 * i] == Service.UpdateForm(cs[i].countryCode, names[i], previousYear)
    ensures Plan(cs, names, previousYear, currentYear)[2 * i + 1] == Service.UpdateForm(cs[i].countryCode, names[i], currentYear)
  {
    var n := |cs| - 1;
    if i < n {
      PlanMeaning(cs[..n], names[..n], previousYear, currentYear, i);
    }
  }

  /** The name the asynchronous job sends for country `i`: the value the
      first-name map holds for its code. */
  function AsyncName(cs: seq<Country>, i: int): (n: string)
    requires 0 <= i < |cs|
    ensures Some(n) == FirstName(cs, cs[i].countryCode)
  {
    CountryNameMapCovers(cs, i);
    CountryNameMap(cs)[cs[i].countryCode]
  }

  function AsyncNames(cs: seq<Country>): (ns: seq<string>)
    ensures |ns| == |cs|
  {
    seq(|cs|, i requires 0 <= i < |cs| => AsyncName(cs, i))
  }

  function OwnNames(cs: seq<Country>): (ns: seq<string>)
    ensures |ns| == |cs|
  {
    seq(|cs|, i requires 0 <= i < |cs| => cs[i].name)
  }

  /** Makes the calls of a plan two at a time (one country's previous
      and current year), each on the store the previous call left, and
      counts the countries whose two calls both returned normally. */
  method RunPlan(db: Db, forms: seq<Service.UpdateForm>, countries: nat, call: Caller)
    returns (db': Db, flags: seq<bool>, successCount: int)
    requires |forms| == 2 * countries
    ensures db' == RunForms(db, forms, call).0
    ensures flags == RunForms(db, forms, call).1
    ensures successCount == CountBoth(flags)
    ensures 0 <= successCount <= countries
  {
    db', flags, successCount := db, [], 0;
    var i := 0;
    while i < countries
      invariant 0 <= i <= countries
      invariant db' == RunForms(db, forms[..2 * i], call).0
      invariant flags == RunForms(db, forms[..2 * i], call).1
      invariant successCount == CountBoth(flags)
    {
      var k := 2 * i;
      var a, b := forms[k], forms[k + 1];
      assert forms[..k + 2] == forms[..k] + [a, b];
      var s1 := call(db', a);
      var s2 := call(s1.0, b);
      RunFormsPair(db, forms[..k], a, b, call, s1, s2);
      CountBothSnoc(flags, s1.1, s2.1);
      db', flags := s2.0, flags + [s1.1, s2.1];
      successCount := successCount + if s1.1 && s2.1 then 1 else 0;
      i := i + 1;
    }
    assert forms[..2 * i] == forms;
  }

  /** `YearlyDataSyncSchedulerAsync.syncYearlyDataAsync` run for
      `currentYear`: no countries (or a failed list) gives 0 with no call;
      otherwise every country is synchronised for `currentYear - 1` and
      `currentYear` under the name the first-name map gives its code, and
      the count is the number of countries whose two calls both
      succeeded. */
  method SyncAsync(db: Db, countries: Option<seq<Country>>, source: Source, currentYear: int, now: Timestamp)
    returns (db': Db, successCount: int, forms: seq<Service.UpdateForm>)
    ensures var cs := CountriesOrEmpty(countries);
      forms == Plan(cs, AsyncNames(cs), currentYear - 1, currentYear)
    ensures db' == RunForms(db, forms, Calls(source, now)).0
    ensures successCount == CountBoth(RunForms(db, forms, Calls(source, now)).1)
    ensures 0 <= successCount <= |CountriesOrEmpty(countries)|
    ensures |CountriesOrEmpty(countries)| == 0 ==> db' == db && successCount == 0
  {
    var cs := CountriesOrEmpty(countries);
    forms := Plan(cs, AsyncNames(cs), currentYear - 1, currentYear);
    var flags;
    db', flags, successCount := RunPlan(db, forms, |cs|, Calls(source, now));
  }

  /** `YearlyDataSyncScheduler.syncYearlyData`: the years are
      `endYear - 1` and `endYear`, fixed when the job is created, and every
      call carries the country's own name; outcomes are not counted. */
  method SyncSync(db: Db, countries: Option<seq<Country>>, source: Source, endYear: int, now: Timestamp)
    returns (db': Db, forms: seq<Service.UpdateForm>)
    ensures var cs := CountriesOrEmpty(countries);
      forms == Plan(cs, OwnNames(cs), endYear - 1, endYear)
    ensures db' == RunForms(db, forms, Calls(source, now)).0
    ensures |CountriesOrEmpty(countries)| == 0 ==> db' == db
  {
    var cs := CountriesOrEmpty(countries);
    forms := Plan(cs, OwnNames(cs), endYear - 1, endYear);
    var flags, count;
    db', flags, count := RunPlan(db, forms, |cs|, Calls(source, now));
  }

  /** When no two listed countries share a code, the first-name map gives
      every country its own name, so both jobs make the same calls in the
      same order and leave the same store. */
  lemma SchedulersAgree(db: Db, cs: seq<Country>, source: Source, year: int, now: Timestamp)
    requires DistinctCodes(cs)
    ensures AsyncNames(cs) == OwnNames(cs)
    ensures RunForms(db, Plan(cs, AsyncNames(cs), year - 1, year), Calls(source, now))
         == RunForms(db, Plan(cs, OwnNames(cs), year - 1, year), Calls(source, now))
  {
    forall i | 0 <= i < |cs| ensures AsyncNames(cs)[i] == OwnNames(cs)[i] {
      FirstNameMeaning(cs, cs[i].countryCode);
    }
  }

  /** With a repeated code the asynchronous job sends the first country's
      name for the later one too, so the two jobs can diverge. */
  lemma RepeatedCodeTakesFirstName(a: Country, b: Country)
    requires a.countryCode == b.countryCode && a.name != b.name
    ensures AsyncNames([a, b]) == [a.name, a.name]
    ensures OwnNames([a, b]) == [a.name, b.name]
  {
    assert AsyncNames([a, b])[1] == AsyncName([a, b], 1);
    assert FirstName([a, b], b.countryCode) == Some(a.name);
  }
}
