/** The `Holiday` entity, the fetched `HolidayDto`, and `Country`.

    The entity's store id is not a field here: it lives in the store's `Row`
    (the id is null until the store assigns one, see module `Store`).  Java
    references that may be null are `Option`s where null changes behaviour;
    the clock is the parameter `now`. */
module Entity {
  import opened Wrappers
  import opened DateUtils
  import StringArrayUtils

  /** A `LocalDateTime` reading of the clock. */
  type Timestamp = int

  /** A holiday as the remote source returns it. */
  datatype HolidayDto = HolidayDto(
    date: Date,
    localName: Option<string>,
    name: string,
    countryCode: string,
    fixed: Option<bool>,
    global: Option<bool>,
    counties: Option<seq<string>>,
    launchYear: Option<int>,
    types: Option<seq<string>>)

  /** A country as the remote source returns it. */
  datatype Country = Country(countryCode: string, name: string)

  /** The persistent holiday record; `types` and `counties` are the
      comma-joined text columns. */
  datatype Holiday = Holiday(
    countryCode: string,
    countryName: string,
    date: Date,
    localName: Option<string>,
    name: string,
    fixed: Option<bool>,
    global: Option<bool>,
    launchYear: Option<int>,
    types: Option<string>,
    counties: Option<string>,
    createdAt: Timestamp,
    updatedAt: Timestamp)

  /** The entity constructor (also what `Holiday.builder()...build()` runs):
      copies the ten business fields and stamps both timestamps from the
      clock. */
  function NewHoliday(countryCode: string, countryName: string, date: Date,
                      localName: Option<string>, name: string, fixed: Option<bool>,
                      global: Option<bool>, launchYear: Option<int>,
                      types: Option<string>, counties: Option<string>,
                      now: Timestamp): (h: Holiday)
    ensures h.countryCode == countryCode && h.countryName == countryName
    ensures h.date == date && h.localName == localName && h.name == name
    ensures h.fixed == fixed && h.global == global && h.launchYear == launchYear
    ensures h.types == types && h.counties == counties
    ensures h.createdAt == now && h.updatedAt == now
  {
    Holiday(countryCode, countryName, date, localName, name, fixed, global,
            launchYear, types, counties, now, now)
  }

  /** `Holiday.updateHoliday`: replaces the eight business fields it is
      given, sets `createdAt` to the argument and `updatedAt` to the clock;
      the country code and name are never touched. */
  function UpdateHoliday(h: Holiday, date: Date, localName: Option<string>, name: string,
                         fixed: Option<bool>, global: Option<bool>, launchYear: Option<int>,
                         types: Option<string>, counties: Option<string>,
                         createdAt: Timestamp, now: Timestamp): (u: Holiday)
    ensures u.countryCode == h.countryCode && u.countryName == h.countryName
    ensures u.date == date && u.localName == localName && u.name == name
    ensures u.fixed == fixed && u.global == global && u.launchYear == launchYear
    ensures u.types == types && u.counties == counties
    ensures u.createdAt == createdAt && u.updatedAt == now
  {
    h.(date := date, localName := localName, name := name, fixed := fixed,
       global := global, launchYear := launchYear, types := types,
       counties := counties, createdAt := createdAt, updatedAt := now)
  }

  /** The entity both service variants build for a fetched holiday that has
      no stored match: the dto's fields, the given country name, and the
      lists joined by `joinFromList`. */
  function FromDto(dto: HolidayDto, countryName: string, now: Timestamp): Holiday
  {
    NewHoliday(dto.countryCode, countryName, dto.date, dto.localName, dto.name,
               dto.fixed, dto.global, dto.launchYear,
               StringArrayUtils.JoinFromList(dto.types),
               StringArrayUtils.JoinFromList(dto.counties), now)
  }

  /** The in-place update both service variants apply to a stored record
      matched by date: the dto's business fields, the record's own
      `createdAt` passed back in. */
  function ApplyDto(h: Holiday, dto: HolidayDto, now: Timestamp): Holiday
  {
    UpdateHoliday(h, dto.date, dto.localName, dto.name, dto.fixed, dto.global,
                  dto.launchYear, StringArrayUtils.JoinFromList(dto.types),
                  StringArrayUtils.JoinFromList(dto.counties), h.createdAt, now)
  }

  /** The record carries exactly the business content of `dto`. */
  predicate Reflects(h: Holiday, dto: HolidayDto) {
    && h.date == dto.date
    && h.localName == dto.localName
    && h.name == dto.name
    && h.fixed == dto.fixed
    && h.global == dto.global
    && h.launchYear == dto.launchYear
    && h.types == StringArrayUtils.JoinFromList(dto.types)
    && h.counties == StringArrayUtils.JoinFromList(dto.counties)
  }

  /** The record with its `updatedAt` blanked: equality of `Unstamped`
      values is equality "ignoring updatedAt". */
  function Unstamped(h: Holiday): Holiday {
    h.(updatedAt := 0)
  }

  /** The column constraints the database enforces on a row: `country_code`
      is declared with length 2. */
  predicate Accepts(h: Holiday) {
    |h.countryCode| <= 2
  }

  /** A matched update keeps the record's identity and creation time and
      makes it reflect the fetched holiday. */
  lemma ApplyDtoKeepsIdentity(h: Holiday, dto: HolidayDto, now: Timestamp)
    ensures ApplyDto(h, dto, now).countryCode == h.countryCode
    ensures ApplyDto(h, dto, now).countryName == h.countryName
    ensures ApplyDto(h, dto, now).createdAt == h.createdAt
    ensures ApplyDto(h, dto, now).updatedAt == now
    ensures Reflects(ApplyDto(h, dto, now), dto)
  {
  }

  /** A new record reflects its dto and carries the given name. */
  lemma FromDtoReflects(dto: HolidayDto, countryName: string, now: Timestamp)
    ensures Reflects(FromDto(dto, countryName, now), dto)
    ensures FromDto(dto, countryName, now).countryCode == dto.countryCode
    ensures FromDto(dto, countryName, now).countryName == countryName
    ensures FromDto(dto, countryName, now).createdAt == now
  {
  }

  /** Re-applying the content a record already reflects changes nothing but
      `updatedAt`: this is why a repeated sync leaves stored contents
      unchanged. */
  lemma ApplyReflectedIsNoOp(h: Holiday, dto: HolidayDto, now: Timestamp)
    requires Reflects(h, dto)
    ensures Unstamped(ApplyDto(h, dto, now)) == Unstamped(h)
  {
  }

  /** Two updates with the same content equal one update at the later
      time. */
  lemma ApplyDtoIdempotent(h: Holiday, dto: HolidayDto, t1: Timestamp, t2: Timestamp)
    ensures ApplyDto(ApplyDto(h, dto, t1), dto, t2) == ApplyDto(h, dto, t2)
  {
  }
}
