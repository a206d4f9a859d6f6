/** The read side: the advanced search of `HolidayRepositoryImpl` (filters
    built from a `HolidaySearchCondition`, an order chosen from `sortBy` and
    `sortDirection`, one page of `HolidayResponse`s and the total count), the
    basic country-and-year search, and the detail lookup. */
module Search {
  import opened Wrappers
  import opened DateUtils
  import opened JavaText
  import opened Entity
  import opened Errors
  import opened Store
  import StringArrayUtils

  datatype SearchCondition = SearchCondition(
    countryName: Option<string>,
    startDate: Option<Date>,
    endDate: Option<Date>,
    localName: Option<string>,
    name: Option<string>,
    global: Option<bool>,
    launchYear: Option<int>,
    sortBy: Option<string>,
    sortDirection: Option<string>)

  /** The bean-validation constraints on a condition: the size limits on the
      three text filters, both dates not after today, and a launch year in
      [2020, 2025]; null fields pass.  Nothing relates the two dates. */
  predicate ValidCondition(c: SearchCondition, today: Date) {
    && (c.countryName.Some? ==> |c.countryName.value| <= 100)
    && (c.startDate.Some? ==> NotAfter(c.startDate.value, today))
    && (c.endDate.Some? ==> NotAfter(c.endDate.value, today))
    && (c.localName.Some? ==> |c.localName.value| <= 200)
    && (c.name.Some? ==> |c.name.value| <= 200)
    && (c.launchYear.Some? ==> 2020 <= c.launchYear.value <= 2025)
  }

  // ---------------------------------------------------------------------
  // The WHERE clause.

  datatype TextColumn = CountryNameColumn | LocalNameColumn | NameColumn

  /** One predicate the `BooleanBuilder` conjoins. */
  datatype Filter =
    | ContainsText(column: TextColumn, text: string)
    | DateBetween(low: Date, high: Date)
    | DateGoe(low: Date)
    | DateLoe(high: Date)
    | GlobalEq(flag: bool)
    | LaunchYearEq(year: int)

  /** A text filter applies only when Spring's `hasText` holds. */
  predicate Active(f: Option<string>) {
    f.Some? && HasText(f.value)
  }

  function TextFilter(column: TextColumn, f: Option<string>): seq<Filter> {
    if Active(f) then [ContainsText(column, f.value)] else []
  }

  function DateFilter(start: Option<Date>, end: Option<Date>): seq<Filter> {
    if start.Some? && end.Some? then [DateBetween(start.value, end.value)]
    else if start.Some? then [DateGoe(start.value)]
    else if end.Some? then [DateLoe(end.value)]
    else []
  }

  /** `buildSearchCondition`: the non-null filters, in builder order. */
  function BuildSearchCondition(c: SearchCondition): (fs: seq<Filter>)
    ensures |fs| <= 6
  {
    TextFilter(CountryNameColumn, c.countryName)
    + DateFilter(c.startDate, c.endDate)
    + TextFilter(LocalNameColumn, c.localName)
    + TextFilter(NameColumn, c.name)
    + (if c.global.Some? then [GlobalEq(c.global.value)] else [])
    + (if c.launchYear.Some? then [LaunchYearEq(c.launchYear.value)] else [])
  }

  /** SQL truth of one filter on a record; comparing a NULL column yields
      no match. */
  predicate Holds(f: Filter, h: Holiday) {
    match f
    case ContainsText(CountryNameColumn, t) => Contains(h.countryName, t)
    case ContainsText(LocalNameColumn, t) => h.localName.Some? && Contains(h.localName.value, t)
    case ContainsText(NameColumn, t) => Contains(h.name, t)
    case DateBetween(lo, hi) => NotAfter(lo, h.date) && NotAfter(h.date, hi)
    case DateGoe(lo) => NotAfter(lo, h.date)
    case DateLoe(hi) => NotAfter(h.date, hi)
    case GlobalEq(g) => h.global == Some(g)
    case LaunchYearEq(y) => h.launchYear == Some(y)
  }

  /** Every filter of `fs` holds on `h`. */
  predicate AllHold(fs: seq<Filter>, h: Holiday) {
    forall f :: f in fs ==> Holds(f, h)
  }

  lemma AllHoldConcat(a: seq<Filter>, b: seq<Filter>, h: Holiday)
    ensures AllHold(a + b, h) <==> AllHold(a, h) && AllHold(b, h)
  {
    assert forall f :: f in a + b <==> f in a || f in b;
  }

  lemma AllHoldSmall(f: Filter, h: Holiday)
    ensures AllHold([], h)
    ensures AllHold([f], h) <==> Holds(f, h)
  {
    assert f in [f];
  }

  /** A record passes the WHERE clause. */
  predicate Matches(h: Holiday, c: SearchCondition) {
    AllHold(BuildSearchCondition(c), h)
  }

  /** What the condition means, field by field: each text filter with text
      is a substring test (a NULL local name never matches), each given
      date bounds the record's date inclusively, and the flag and launch
      year must be equal when given. */
  lemma MatchesMeaning(h: Holiday, c: SearchCondition)
    ensures Matches(h, c) <==>
      && (Active(c.countryName) ==> Contains(h.countryName, c.countryName.value))
      && (c.startDate.Some? ==> NotAfter(c.startDate.value, h.date))
      && (c.endDate.Some? ==> NotAfter(h.date, c.endDate.value))
      && (Active(c.localName) ==> h.localName.Some? && Contains(h.localName.value, c.localName.value))
      && (Active(c.name) ==> Contains(h.name, c.name.value))
      && (c.global.Some? ==> h.global == c.global)
      && (c.launchYear.Some? ==> h.launchYear == c.launchYear)
  {
    var f1 := TextFilter(CountryNameColumn, c.countryName);
    var f2 := DateFilter(c.startDate, c.endDate);
    var f3 := TextFilter(LocalNameColumn, c.localName);
    var f4 := TextFilter(NameColumn, c.name);
    var f5 := if c.global.Some? then [GlobalEq(c.global.value)] else [];
    var f6 := if c.launchYear.Some? then [LaunchYearEq(c.launchYear.value)] else [];
    assert Matches(h, c) <==>
      AllHold(f1, h) && AllHold(f2, h) && AllHold(f3, h) && AllHold(f4, h) && AllHold(f5, h) && AllHold(f6, h) by {
      AllHoldConcat(f1, f2, h);
      AllHoldConcat(f1 + f2, f3, h);
      AllHoldConcat(f1 + f2 + f3, f4, h);
      AllHoldConcat(f1 + f2 + f3 + f4, f5, h);
      AllHoldConcat(f1 + f2 + f3 + f4 + f5, f6, h);
    }
    assert AllHold(f1, h) <==> (Active(c.countryName) ==> Contains(h.countryName, c.countryName.value)) by {
      TextFilterHolds(CountryNameColumn, c.countryName, h);
    }
    assert AllHold(f2, h) <==>
      (c.startDate.Some? ==> NotAfter(c.startDate.value, h.date)) && (c.endDate.Some? ==> NotAfter(h.date, c.endDate.value)) by {
      DateFilterHolds(c.startDate, c.endDate, h);
    }
    assert AllHold(f3, h) <==>
      (Active(c.localName) ==> h.localName.Some? && Contains(h.localName.value, c.localName.value)) by {
      TextFilterHolds(LocalNameColumn, c.localName, h);
    }
    assert AllHold(f4, h) <==> (Active(c.name) ==> Contains(h.name, c.name.value)) by {
      TextFilterHolds(NameColumn, c.name, h);
    }
    assert AllHold(f5, h) <==> (c.global.Some? ==> h.global == c.global) by {
      if c.global.Some? { AllHoldSmall(f5[0], h); } else { AllHoldSmall(GlobalEq(true), h); }
    }
    assert AllHold(f6, h) <==> (c.launchYear.Some? ==> h.launchYear == c.launchYear) by {
      if c.launchYear.Some? { AllHoldSmall(f6[0], h); } else { AllHoldSmall(GlobalEq(true), h); }
    }
  }

  lemma TextFilterHolds(column: TextColumn, f: Option<string>, h: Holiday)
    ensures AllHold(TextFilter(column, f), h) <==> (Active(f) ==> Holds(ContainsText(column, f.value), h))
  {
    if Active(f) { AllHoldSmall(ContainsText(column, f.value), h); } else { AllHoldSmall(GlobalEq(true), h); }
  }

  lemma DateFilterHolds(start: Option<Date>, end: Option<Date>, h: Holiday)
    ensures AllHold(DateFilter(start, end), h) <==>
      && (start.Some? ==> NotAfter(start.value, h.date))
      && (end.Some? ==> NotAfter(h.date, end.value))
  {
    var fs := DateFilter(start, end);
    if |fs| == 1 { AllHoldSmall(fs[0], h); } else { AllHoldSmall(GlobalEq(true), h); }
  }

  /** Blank text filters are ignored: an all-null condition, or one whose
      text fields hold only whitespace, matches every record. */
  lemma BlankConditionMatchesAll(h: Holiday, c: SearchCondition)
    requires !Active(c.countryName) && !Active(c.localName) && !Active(c.name)
    requires c.startDate.None? && c.endDate.None? && c.global.None? && c.launchYear.None?
    ensures Matches(h, c)
  {
    MatchesMeaning(h, c);
  }

  /** Validation does not order the two dates, so a valid condition can
      select nothing: with the start after the end no record matches. */
  lemma InvertedRangeMatchesNothing(h: Holiday, c: SearchCondition)
    requires c.startDate.Some? && c.endDate.Some? && Before(c.endDate.value, c.startDate.value)
    ensures !Matches(h, c)
  {
    MatchesMeaning(h, c);
  }

  /** A valid condition whose start date lies after its end date, both on
      or before today, passes validation and matches no record. */
  lemma InvertedRangeIsValid(start: Date, end: Date, today: Date)
    requires Before(end, start) && NotAfter(start, today)
    ensures var c := SearchCondition(None, Some(start), Some(end), None, None, None, None, None, None);
      && ValidCondition(c, today)
      && forall h: Holiday :: !Matches(h, c)
  {
    var c := SearchCondition(None, Some(start), Some(end), None, None, None, None, None, None);
    NotAfterTotalOrder(end, start, today);
    forall h: Holiday ensures !Matches(h, c) {
      InvertedRangeMatchesNothing(h, c);
    }
  }

  // ---------------------------------------------------------------------
  // ORDER BY.

  datatype SortKey = ByDate | ByCountryName | ByName | ByLaunchYear
  datatype Direction = Asc | Desc
  datatype OrderSpec = OrderSpec(key: SortKey, direction: Direction)

  /** `buildOrderSpecifier`: none without a `sortBy` text; otherwise the key
      named by `sortBy` (case-insensitively) in the direction `desc`
      (case-insensitively) or else ascending; an unknown key sorts by date,
      descending, whatever the direction says. */
  function BuildOrderSpecifier(c: SearchCondition): (r: Option<OrderSpec>)
    ensures r.None? <==> !Active(c.sortBy)
  {
    if !Active(c.sortBy) then None
    else
      var dir := if c.sortDirection.Some? && EqualsIgnoreCaseDesc(c.sortDirection.value) then Desc else Asc;
      var key := c.sortBy.value;
      if LowerEquals(key, "date") then Some(OrderSpec(ByDate, dir))
      else if LowerEquals(key, "countryname") then Some(OrderSpec(ByCountryName, dir))
      else if LowerEquals(key, "name") then Some(OrderSpec(ByName, dir))
      else if LowerEquals(key, "launchyear") then Some(OrderSpec(ByLaunchYear, dir))
      else Some(OrderSpec(ByDate, Desc))
  }

  /** A `sortBy` text naming one of the four keys. */
  predicate KnownKey(s: string) {
    LowerEquals(s, "date") || LowerEquals(s, "countryname") || LowerEquals(s, "name") || LowerEquals(s, "launchyear")
  }

  /** The order the query uses: the specifier, or date descending when
      there is none. */
  function EffectiveOrder(c: SearchCondition): OrderSpec {
    BuildOrderSpecifier(c).GetOr(OrderSpec(ByDate, Desc))
  }

  /** Which order a condition selects: a key other than the date exactly
      when `sortBy` names it, and ascending exactly when `sortBy` names a
      known key and the direction is not `desc`. */
  lemma EffectiveOrderMeaning(c: SearchCondition)
    ensures EffectiveOrder(c).key == ByCountryName <==> Active(c.sortBy) && LowerEquals(c.sortBy.value, "countryname")
    ensures EffectiveOrder(c).key == ByName <==> Active(c.sortBy) && LowerEquals(c.sortBy.value, "name")
    ensures EffectiveOrder(c).key == ByLaunchYear <==> Active(c.sortBy) && LowerEquals(c.sortBy.value, "launchyear")
    ensures EffectiveOrder(c).direction == Asc <==>
      Active(c.sortBy) && KnownKey(c.sortBy.value)
      && !(c.sortDirection.Some? && EqualsIgnoreCaseDesc(c.sortDirection.value))
  {
    if Active(c.sortBy) {
      var s := c.sortBy.value;
      var keys := ["date", "countryname", "name", "launchyear"];
      forall t, u | t in keys && u in keys && LowerEquals(s, t) && LowerEquals(s, u) ensures t == u {
        LowerEqualsUnique(s, t, u);
      }
    }
  }

  /** `a` and `b` differ at most in the case of ASCII letters. */
  predicate SameIgnoringCase(a: string, b: string) {
    |a| == |b| && forall i :: 0 <= i < |a| ==> AsciiLower(a[i]) == AsciiLower(b[i])
  }

  /** Case folding keeps whitespace and non-whitespace apart. */
  lemma SameIgnoringCaseHasText(a: string, b: string)
    requires SameIgnoringCase(a, b)
    ensures HasText(a) ==> HasText(b)
  {
    if HasText(a) {
      var i :| 0 <= i < |a| && !IsWhitespace(a[i]);
      assert AsciiLower(a[i]) == AsciiLower(b[i]);
      assert !IsWhitespace(b[i]);
    }
  }

  /** The sort key is read case-insensitively: two conditions whose
      `sortBy` texts differ only in letter case, and whose directions agree
      on being `desc`, select the same order. */
  lemma OrderIsCaseInsensitive(c: SearchCondition, c': SearchCondition)
    requires c.sortBy.Some? && c'.sortBy.Some? && SameIgnoringCase(c.sortBy.value, c'.sortBy.value)
    requires (c.sortDirection.Some? && EqualsIgnoreCaseDesc(c.sortDirection.value))
         == (c'.sortDirection.Some? && EqualsIgnoreCaseDesc(c'.sortDirection.value))
    ensures EffectiveOrder(c) == EffectiveOrder(c')
  {
    var a := c.sortBy.value;
    var b := c'.sortBy.value;
    SameIgnoringCaseHasText(a, b);
    SameIgnoringCaseHasText(b, a);
    forall t | t in ["date", "countryname", "name", "launchyear"]
      ensures LowerEquals(a, t) <==> LowerEquals(b, t)
    {
      if LowerEquals(a, t) {
        forall i | 0 <= i < |b| ensures AsciiLower(b[i]) == t[i] {
          assert AsciiLower(a[i]) == AsciiLower(b[i]);
        }
      }
      if LowerEquals(b, t) {
        forall i | 0 <= i < |a| ensures AsciiLower(a[i]) == t[i] {
          assert AsciiLower(a[i]) == AsciiLower(b[i]);
        }
      }
    }
  }

  /** A known key with no direction sorts ascending by that key. */
  lemma MissingDirectionIsAscending(c: SearchCondition)
    requires Active(c.sortBy) && KnownKey(c.sortBy.value) && c.sortDirection.None?
    ensures EffectiveOrder(c).direction == Asc
  {
    EffectiveOrderMeaning(c);
  }

  /** A `sortBy` text naming no known key sorts by date, descending,
      whatever the direction says. */
  lemma UnknownKeyFallsBack(c: SearchCondition)
    requires Active(c.sortBy) && !KnownKey(c.sortBy.value)
    ensures EffectiveOrder(c) == OrderSpec(ByDate, Desc)
  {
  }

  /** NULL sorts below every value. */
  predicate OptionalLessEq(a: Option<int>, b: Option<int>) {
    a.None? || (b.Some? && a.value <= b.value)
  }

  predicate KeyLessEq(k: SortKey, a: Holiday, b: Holiday) {
    match k
    case ByDate => NotAfter(a.date, b.date)
    case ByCountryName => StringLessEq(a.countryName, b.countryName)
    case ByName => StringLessEq(a.name, b.name)
    case ByLaunchYear => OptionalLessEq(a.launchYear, b.launchYear)
  }

  /** `a` may come before `b` in the order `o`. */
  predicate Precedes(o: OrderSpec, a: Holiday, b: Holiday) {
    if o.direction == Asc then KeyLessEq(o.key, a, b) else KeyLessEq(o.key, b, a)
  }

  lemma PrecedesTotal(o: OrderSpec, a: Holiday, b: Holiday)
    ensures Precedes(o, a, b) || Precedes(o, b, a)
  {
    match o.key
    case ByDate => NotAfterTotalOrder(a.date, b.date, b.date);
    case ByCountryName => StringLessEqTotal(a.countryName, b.countryName);
    case ByName => StringLessEqTotal(a.name, b.name);
    case ByLaunchYear =>
  }

  lemma PrecedesTransitive(o: OrderSpec, a: Holiday, b: Holiday, c: Holiday)
    requires Precedes(o, a, b) && Precedes(o, b, c)
    ensures Precedes(o, a, c)
  {
    match o.key
    case ByDate =>
      NotAfterTotalOrder(a.date, b.date, c.date);
      NotAfterTotalOrder(c.date, b.date, a.date);
    case ByCountryName =>
      if o.direction == Asc {
        StringLessEqTransitive(a.countryName, b.countryName, c.countryName);
      } else {
        StringLessEqTransitive(c.countryName, b.countryName, a.countryName);
      }
    case ByName =>
      if o.direction == Asc {
        StringLessEqTransitive(a.name, b.name, c.name);
      } else {
        StringLessEqTransitive(c.name, b.name, a.name);
      }
    case ByLaunchYear =>
  }

  predicate SortedBy(o: OrderSpec, rows: seq<Row>) {
    forall i, j :: 0 <= i < j < |rows| ==> Precedes(o, rows[i].holiday, rows[j].holiday)
  }

  /** `a` may precede every row of `rows`. */
  predicate LowerBound(o: OrderSpec, a: Holiday, rows: seq<Row>) {
    forall y :: y in rows ==> Precedes(o, a, y.holiday)
  }

  lemma SortedCons(o: OrderSpec, a: Row, rows: seq<Row>)
    requires SortedBy(o, rows) && LowerBound(o, a.holiday, rows)
    ensures SortedBy(o, [a] + rows)
  {
    forall i, j | 0 <= i < j < |rows| + 1
      ensures Precedes(o, ([a] + rows)[i].holiday, ([a] + rows)[j].holiday)
    {
      if i == 0 {
        assert ([a] + rows)[j] == rows[j - 1];
      }
    }
  }

  lemma SortedHeadBound(o: OrderSpec, rows: seq<Row>)
    requires SortedBy(o, rows) && |rows| > 0
    ensures LowerBound(o, rows[0].holiday, rows[1..])
    ensures SortedBy(o, rows[1..])
  {
    forall y | y in rows[1..] ensures Precedes(o, rows[0].holiday, y.holiday) {
      var k :| 0 <= k < |rows[1..]| && rows[1..][k] == y;
      assert rows[k + 1] == y;
    }
  }

  /** Inserts `x` before the first row it may precede. */
  function Insert(o: OrderSpec, x: Row, rows: seq<Row>): (r: seq<Row>)
    requires SortedBy(o, rows)
    ensures SortedBy(o, r)
    ensures multiset(r) == multiset(rows) + multiset{x}
    ensures forall y :: y in r <==> y == x || y in rows
  {
    if |rows| == 0 then [x]
    else
      SortedHeadBound(o, rows);
      PrecedesTotal(o, x.holiday, rows[0].holiday);
      assert rows == [rows[0]] + rows[1..];
      if Precedes(o, x.holiday, rows[0].holiday) then
        forall y | y in rows ensures Precedes(o, x.holiday, y.holiday) {
          if y != rows[0] {
            PrecedesTransitive(o, x.holiday, rows[0].holiday, y.holiday);
          }
        }
        SortedCons(o, x, rows);
        [x] + rows
      else
        var rest := Insert(o, x, rows[1..]);
        SortedCons(o, rows[0], rest);
        [rows[0]] + rest
  }

  /** Insertion sort: a permutation of the rows, sorted by `o`; equal keys
      keep their stored order. */
  function SortRows(o: OrderSpec, rows: seq<Row>): (r: seq<Row>)
    ensures SortedBy(o, r)
    ensures multiset(r) == multiset(rows)
  {
    if |rows| == 0 then []
    else
      assert rows == [rows[0]] + rows[1..];
      Insert(o, rows[0], SortRows(o, rows[1..]))
  }

  // ---------------------------------------------------------------------
  // The page.

  /** The projection the query selects. */
  datatype HolidayResponse = HolidayResponse(
    id: int, countryCode: string, countryName: string, date: Date,
    localName: Option<string>, name: string)

  function ToResponse(x: Row): HolidayResponse {
    HolidayResponse(x.id, x.holiday.countryCode, x.holiday.countryName, x.holiday.date,
                    x.holiday.localName, x.holiday.name)
  }

  function ToResponses(rows: seq<Row>): (r: seq<HolidayResponse>)
    ensures |r| == |rows|
    ensures forall i :: 0 <= i < |rows| ==> r[i] == ToResponse(rows[i])
  {
    if |rows| == 0 then [] else [ToResponse(rows[0])] + ToResponses(rows[1..])
  }

  /** How many of `total` elements a page at `offset` of `size` holds. */
  function PageLength(total: int, offset: nat, size: nat): nat {
    if offset >= total then 0 else if offset + size <= total then size else total - offset
  }

  /** `OFFSET offset LIMIT size`: the elements from `offset` on, at most
      `size` of them. */
  function PageOf<T>(xs: seq<T>, offset: nat, size: nat): (r: seq<T>)
    ensures |r| == PageLength(|xs|, offset, size)
    ensures forall i :: 0 <= i < |r| ==> r[i] == xs[offset + i]
  {
    if offset >= |xs| then []
    else if offset + size <= |xs| then xs[offset..offset + size]
    else xs[offset..]
  }

  /** Consecutive pages tile the sequence: two adjacent pages are the page
      of their combined size. */
  lemma PagesTile<T>(xs: seq<T>, offset: nat, s: nat, t: nat)
    ensures PageOf(xs, offset, s) + PageOf(xs, offset + s, t) == PageOf(xs, offset, s + t)
  {
  }

  datatype PageResult = PageResult(content: seq<HolidayResponse>, total: int)

  /** The rows passing the WHERE clause, in stored order. */
  function Matching(db: Db, c: SearchCondition): (r: seq<Row>)
    ensures forall x :: x in r <==> x in db.rows && Matches(x.holiday, c)
  {
    FilterRows(db.rows, (x: Row) => Matches(x.holiday, c))
  }

  /** The matching rows in the effective order. */
  function Ordered(db: Db, c: SearchCondition): (r: seq<Row>)
    ensures SortedBy(EffectiveOrder(c), r)
    ensures multiset(r) == multiset(Matching(db, c))
    ensures |r| == |Matching(db, c)|
  {
    var r := SortRows(EffectiveOrder(c), Matching(db, c));
    assert |multiset(r)| == |multiset(Matching(db, c))|;
    r
  }

  lemma SortedSlice(o: OrderSpec, rows: seq<Row>, lo: int, hi: int)
    requires SortedBy(o, rows) && 0 <= lo <= hi <= |rows|
    ensures SortedBy(o, rows[lo..hi])
  {
    forall i, j | 0 <= i < j < hi - lo
      ensures Precedes(o, rows[lo..hi][i].holiday, rows[lo..hi][j].holiday)
    {
      assert rows[lo..hi][i] == rows[lo + i] && rows[lo..hi][j] == rows[lo + j];
    }
  }

  /** The rows of the requested page: the ordered matches from position
      `offset` on, `size` of them or as many as remain past the offset;
      each a matching record, in the selected order. */
  function PageRows(db: Db, c: SearchCondition, offset: nat, size: nat): (r: seq<Row>)
    ensures |r| == PageLength(|Matching(db, c)|, offset, size)
    ensures forall i :: 0 <= i < |r| ==> r[i] == Ordered(db, c)[offset + i]
    ensures |r| <= size
    ensures offset + size <= |Matching(db, c)| ==> |r| == size
    ensures offset >= |Matching(db, c)| ==> r == []
    ensures forall x :: x in r ==> x in db.rows && Matches(x.holiday, c)
    ensures SortedBy(EffectiveOrder(c), r)
  {
    PageRowsFacts(db, c, offset, size);
    PageOf(Ordered(db, c), offset, size)
  }

  lemma PageRowsFacts(db: Db, c: SearchCondition, offset: nat, size: nat)
    ensures forall x :: x in PageOf(Ordered(db, c), offset, size) ==> x in db.rows && Matches(x.holiday, c)
    ensures SortedBy(EffectiveOrder(c), PageOf(Ordered(db, c), offset, size))
  {
    var ordered := Ordered(db, c);
    var r := PageOf(ordered, offset, size);
    if offset < |ordered| {
      var hi := if offset + size <= |ordered| then offset + size else |ordered|;
      assert r == ordered[offset..hi];
      SortedSlice(EffectiveOrder(c), ordered, offset, hi);
    }
    forall x | x in r ensures x in db.rows && Matches(x.holiday, c) {
      var i :| 0 <= i < |r| && r[i] == x;
      assert ordered[offset + i] in ordered;
      OrderedMembers(db, c, x);
    }
  }

  /** Every ordered row is a matching record. */
  lemma OrderedMembers(db: Db, c: SearchCondition, x: Row)
    requires x in Ordered(db, c)
    ensures x in db.rows && Matches(x.holiday, c)
  {
    assert x in multiset(Ordered(db, c));
  }

  /** `searchHolidayListWithSearchCondition`: the total is the number of
      matching records; the content is the projection of the ordered
      matches from position `offset` on, at most `size` of them. */
  function SearchWithCondition(db: Db, c: SearchCondition, offset: nat, size: nat): (r: PageResult)
    ensures r.total == |Matching(db, c)|
    ensures |r.content| == PageLength(r.total, offset, size)
    ensures forall i :: 0 <= i < |r.content| ==> r.content[i] == ToResponse(Ordered(db, c)[offset + i])
  {
    PageResult(ToResponses(PageRows(db, c, offset, size)), |Matching(db, c)|)
  }

  /** `searchHolidayList`: the page of a country's records dated in the
      year, in stored order; a year outside `LocalDate`'s range fails as
      `LocalDate.of` does. */
  function SearchByCountryAndYear(db: Db, code: string, year: int, offset: nat, size: nat): (r: Result<PageResult, Fault>)
    ensures r.Failure? <==> !ValidYear(year)
    ensures r.Failure? ==> r.error == Unchecked(DateOutOfRange)
    ensures r.Success? ==>
      var rows := FindByCountryCodeAndDateBetween(db, code, GetYearStartDate(year), GetYearEndDate(year));
      && r.value.total == |rows|
      && |r.value.content| == PageLength(|rows|, offset, size)
      && (forall i :: 0 <= i < |r.value.content| ==> r.value.content[i] == ToResponse(rows[offset + i]))
      && (forall x :: x in rows ==> x.holiday.countryCode == code && InRange(x.holiday.date, GetYearRange(year)))
  {
    if !ValidYear(year) then Failure(Unchecked(DateOutOfRange))
    else
      var rows := FindByCountryCodeAndDateBetween(db, code, GetYearStartDate(year), GetYearEndDate(year));
      Success(PageResult(ToResponses(PageOf(rows, offset, size)), |rows|))
  }

  /** The detail view of one record, its two lists split back out. */
  datatype HolidayDetail = HolidayDetail(
    id: int, countryCode: string, countryName: string, date: Date,
    localName: Option<string>, name: string, fixed: Option<bool>, global: Option<bool>,
    launchYear: Option<int>, types: seq<string>, counties: seq<string>,
    createdAt: Timestamp, updatedAt: Timestamp)

  /** `searchHolidayDetail`: an unknown id fails (`EntityNotFoundException`,
      which is not a business exception); otherwise the record's fields,
      with `types` and `counties` split into lists (empty for NULL). */
  function SearchHolidayDetail(db: Db, id: int): (r: Result<HolidayDetail, Fault>)
    ensures r.Failure? <==> !HasId(db, id)
    ensures r.Failure? ==> r.error == Unchecked(NotFound)
    ensures r.Success? ==>
      && r.value.id == id
      && Row(id, Entity.Holiday(r.value.countryCode, r.value.countryName, r.value.date, r.value.localName,
                                r.value.name, r.value.fixed, r.value.global, r.value.launchYear,
                                FindById(db, id).value.types, FindById(db, id).value.counties,
                                r.value.createdAt, r.value.updatedAt)) in db.rows
      && r.value.types == StringArrayUtils.SplitToList(FindById(db, id).value.types)
      && r.value.counties == StringArrayUtils.SplitToList(FindById(db, id).value.counties)
  {
    match FindById(db, id)
    case None => Failure(Unchecked(NotFound))
    case Some(h) =>
      Success(HolidayDetail(id, h.countryCode, h.countryName, h.date, h.localName, h.name,
                            h.fixed, h.global, h.launchYear,
                            StringArrayUtils.SplitToList(h.types),
                            StringArrayUtils.SplitToList(h.counties),
                            h.createdAt, h.updatedAt))
  }

  /** A record saved from a fetched holiday shows, in its detail view, the
      fetched lists again, provided each element is comma-free and the last
      is non-empty. */
  lemma DetailShowsFetchedLists(db: Db, id: int, dto: HolidayDto)
    requires Valid(db) && HasId(db, id) && Reflects(FindById(db, id).value, dto)
    requires dto.types.Some? && |dto.types.value| > 0
    requires forall i :: 0 <= i < |dto.types.value| ==> ',' !in dto.types.value[i]
    requires dto.types.value[|dto.types.value| - 1] != ""
    ensures SearchHolidayDetail(db, id).value.types == dto.types.value
  {
    StringArrayUtils.SplitJoinRoundTrip(dto.types.value);
  }
}
