/** The `holiday` table behind `HolidayRepository`, `HolidayRepositoryImpl`
    and `HolidayBulkRepository`, as an in-memory map from id to `Holiday`.

    The rows are kept as a sequence in stored order with pairwise distinct
    ids (a finite map with an iteration order); `nextId` is the next value of
    `holiday_seq`, so every id handed out is fresh. */
module Store {
  import opened Wrappers
  import opened DateUtils
  import opened Entity

  datatype Row = Row(id: int, holiday: Holiday)

  datatype Db = Db(rows: seq<Row>, nextId: int)

  /** Ids are distinct and all below the sequence's next value. */
  predicate Valid(db: Db) {
    && (forall i :: 0 <= i < |db.rows| ==> db.rows[i].id < db.nextId)
    && (forall i, j :: 0 <= i < j < |db.rows| ==> db.rows[i].id != db.rows[j].id)
  }

  /** Some row carries `id`. */
  predicate HasId(db: Db, id: int) {
    exists x :: x in db.rows && x.id == id
  }

  // ---------------------------------------------------------------------
  // Sequence helpers.

  /** The rows satisfying `keep`, in stored order. */
  function FilterRows(rows: seq<Row>, keep: Row -> bool): (r: seq<Row>)
    ensures |r| <= |rows|
    ensures forall x :: x in r <==> x in rows && keep(x)
  {
    if |rows| == 0 then []
    else if keep(rows[0]) then [rows[0]] + FilterRows(rows[1..], keep)
    else FilterRows(rows[1..], keep)
  }

  /** A filter and its complement split the rows between them. */
  lemma {:induction false} FilterSplitsRows(rows: seq<Row>, keep: Row -> bool)
    ensures |FilterRows(rows, keep)| + |FilterRows(rows, (x: Row) => !keep(x))| == |rows|
  {
    if |rows| > 0 {
      FilterSplitsRows(rows[1..], keep);
    }
  }

  /** Filtering keeps ids distinct and below the bound. */
  lemma {:induction false} FilterKeepsValid(rows: seq<Row>, keep: Row -> bool, n: int)
    ensures Valid(Db(rows, n)) ==> Valid(Db(FilterRows(rows, keep), n))
  {
    if |rows| > 0 && Valid(Db(rows, n)) {
      assert Valid(Db(rows[1..], n));
      FilterKeepsValid(rows[1..], keep, n);
      var rest := FilterRows(rows[1..], keep);
      if keep(rows[0]) {
        var r := [rows[0]] + rest;
        forall i, j | 0 <= i < j < |r| ensures r[i].id != r[j].id {
          if i == 0 {
            assert r[j] in rows[1..];
          }
        }
      }
    }
  }

  /** Valid rows are identified by their id: a row's holiday is what
      `FindById` returns. */
  lemma RowsDeterminedById(db: Db, x: Row, y: Row)
    requires Valid(db) && x in db.rows && y in db.rows && x.id == y.id
    ensures x == y
  {
  }

  // ---------------------------------------------------------------------
  // JpaRepository operations.

  function FindIn(rows: seq<Row>, id: int): (r: Option<Holiday>)
    ensures r.Some? <==> exists x :: x in rows && x.id == id
    ensures r.Some? ==> Row(id, r.value) in rows
  {
    if |rows| == 0 then None
    else if rows[0].id == id then Some(rows[0].holiday)
    else FindIn(rows[1..], id)
  }

  /** `findById`: the holiday stored under `id`, if any. */
  function FindById(db: Db, id: int): (r: Option<Holiday>)
    ensures r.Some? <==> HasId(db, id)
    ensures r.Some? ==> Row(id, r.value) in db.rows
  {
    FindIn(db.rows, id)
  }

  /** In a valid store the row carrying `id` is what `findById` returns. */
  lemma FindByIdOfRow(db: Db, x: Row)
    requires Valid(db) && x in db.rows
    ensures FindById(db, x.id) == Some(x.holiday)
  {
  }

  /** `save` of a new entity: it is stored under the next sequence value,
      which no existing row carries; every other id keeps its holiday. */
  function Save(db: Db, h: Holiday): (r: (Db, int))
    ensures Valid(db) ==> Valid(r.0) && !HasId(db, r.1)
    ensures Valid(db) ==> FindById(r.0, r.1) == Some(h)
    ensures forall k :: k != r.1 ==> FindById(r.0, k) == FindById(db, k)
    ensures forall x :: x in r.0.rows <==> x in db.rows || x == Row(r.1, h)
    ensures r.1 == db.nextId && r.0.nextId == db.nextId + 1
  {
    var db' := Db(db.rows + [Row(db.nextId, h)], db.nextId + 1);
    SaveFacts(db, h, db');
    (db', db.nextId)
  }

  lemma SaveFacts(db: Db, h: Holiday, db': Db)
    requires db' == Db(db.rows + [Row(db.nextId, h)], db.nextId + 1)
    ensures Valid(db) ==> Valid(db') && !HasId(db, db.nextId)
    ensures Valid(db) ==> FindById(db', db.nextId) == Some(h)
    ensures forall k :: k != db.nextId ==> FindById(db', k) == FindById(db, k)
  {
    forall k | k != db.nextId ensures FindById(db', k) == FindById(db, k) {
      FindInAppend(db.rows, Row(db.nextId, h), k);
    }
    if Valid(db) {
      FindByIdOfRow(db', Row(db.nextId, h));
    }
  }

  lemma {:induction false} FindInAppend(rows: seq<Row>, x: Row, k: int)
    requires k != x.id
    ensures FindIn(rows + [x], k) == FindIn(rows, k)
  {
    if |rows| > 0 {
      assert (rows + [x])[1..] == rows[1..] + [x];
      FindInAppend(rows[1..], x, k);
    }
  }

  /** `saveAll` of new entities: one row per holiday, in order, under
      consecutive fresh ids after the rows already stored (one `save` per
      holiday, so the ids are those successive saves would draw). */
  function SaveAll(db: Db, hs: seq<Holiday>): (r: Db)
    ensures |r.rows| == |db.rows| + |hs| && r.rows[..|db.rows|] == db.rows
    ensures forall i :: 0 <= i < |hs| ==> r.rows[|db.rows| + i] == Row(db.nextId + i, hs[i])
    ensures forall i :: |db.rows| <= i < |r.rows| ==> r.rows[i].id >= db.nextId
    ensures r.nextId == db.nextId + |hs|
    ensures Valid(db) ==> Valid(r)
  {
    SaveAllKeepsValid(db, hs);
    Db(db.rows + Numbered(db.nextId, hs), db.nextId + |hs|)
  }

  /** The holidays under consecutive ids from `start`. */
  function Numbered(start: int, hs: seq<Holiday>): (r: seq<Row>)
    ensures |r| == |hs|
    ensures forall i :: 0 <= i < |hs| ==> r[i] == Row(start + i, hs[i])
  {
    seq(|hs|, i requires 0 <= i < |hs| => Row(start + i, hs[i]))
  }

  lemma SaveAllKeepsValid(db: Db, hs: seq<Holiday>)
    ensures Valid(db) ==> Valid(Db(db.rows + Numbered(db.nextId, hs), db.nextId + |hs|))
  {
    var rows := db.rows + Numbered(db.nextId, hs);
    var n := |db.rows|;
    if Valid(db) {
      forall i | 0 <= i < |rows| ensures rows[i].id < db.nextId + |hs| {
        if i >= n { assert rows[i] == Numbered(db.nextId, hs)[i - n]; }
      }
      forall i, j | 0 <= i < j < |rows| ensures rows[i].id != rows[j].id {
        if j >= n {
          assert rows[j] == Numbered(db.nextId, hs)[j - n];
          if i >= n { assert rows[i] == Numbered(db.nextId, hs)[i - n]; }
        }
      }
    }
  }

  function ReplaceIn(rows: seq<Row>, id: int, h: Holiday): (r: seq<Row>)
    ensures |r| == |rows|
    ensures forall i :: 0 <= i < |r| ==> r[i].id == rows[i].id
    ensures forall i :: 0 <= i < |r| && rows[i].id != id ==> r[i] == rows[i]
    ensures forall i :: 0 <= i < |r| && rows[i].id == id ==> r[i] == Row(id, h)
  {
    if |rows| == 0 then []
    else [if rows[0].id == id then Row(id, h) else rows[0]] + ReplaceIn(rows[1..], id, h)
  }

  /** The flush of a managed entity changed in place: the row under `id`
      now holds `h`; every other row, the set of ids and the row order are
      unchanged. */
  function ReplaceById(db: Db, id: int, h: Holiday): (r: Db)
    ensures Valid(db) ==> Valid(r)
    ensures r.nextId == db.nextId && |r.rows| == |db.rows|
    ensures Valid(db) && HasId(db, id) ==> FindById(r, id) == Some(h)
    ensures forall k :: HasId(r, k) <==> HasId(db, k)
    ensures forall x: Row :: x.id != id ==> (x in r.rows <==> x in db.rows)
    ensures Valid(db) ==> forall k :: k != id ==> FindById(r, k) == FindById(db, k)
  {
    ReplaceKeepsIds(db.rows, id, h);
    ReplaceKeepsOthers(db.rows, id, h);
    ReplaceFinds(db, id, h);
    ReplaceFindsOthers(db, id, h);
    Db(ReplaceIn(db.rows, id, h), db.nextId)
  }

  lemma ReplaceFindsOthers(db: Db, id: int, h: Holiday)
    ensures Valid(db) ==> forall k :: k != id ==> FindById(Db(ReplaceIn(db.rows, id, h), db.nextId), k) == FindById(db, k)
  {
    var r := Db(ReplaceIn(db.rows, id, h), db.nextId);
    if Valid(db) {
      ReplaceKeepsOthers(db.rows, id, h);
      ReplaceFinds(db, id, h);
      forall k | k != id ensures FindById(r, k) == FindById(db, k) {
        if FindById(db, k).Some? {
          var x := Row(k, FindById(db, k).value);
          assert x in r.rows;
          FindByIdOfRow(r, x);
        }
        if FindById(r, k).Some? {
          var y := Row(k, FindById(r, k).value);
          assert y in db.rows;
          FindByIdOfRow(db, y);
        }
      }
    }
  }

  lemma ReplaceKeepsIds(rows: seq<Row>, id: int, h: Holiday)
    ensures forall k :: HasId(Db(ReplaceIn(rows, id, h), 0), k) <==> HasId(Db(rows, 0), k)
  {
    var r := ReplaceIn(rows, id, h);
    forall k ensures HasId(Db(r, 0), k) <==> HasId(Db(rows, 0), k) {
      if HasId(Db(rows, 0), k) {
        var x :| x in rows && x.id == k;
        var i :| 0 <= i < |rows| && rows[i] == x;
        assert r[i] in r;
      }
      if HasId(Db(r, 0), k) {
        var x :| x in r && x.id == k;
        var i :| 0 <= i < |r| && r[i] == x;
        assert rows[i] in rows;
      }
    }
  }

  lemma ReplaceKeepsOthers(rows: seq<Row>, id: int, h: Holiday)
    ensures forall x: Row :: x.id != id ==> (x in ReplaceIn(rows, id, h) <==> x in rows)
  {
    var r := ReplaceIn(rows, id, h);
    forall x: Row | x.id != id ensures x in r <==> x in rows {
      if x in r {
        var i :| 0 <= i < |r| && r[i] == x;
        assert rows[i] == x;
      }
      if x in rows {
        var i :| 0 <= i < |rows| && rows[i] == x;
        assert r[i] == x;
      }
    }
  }

  lemma ReplaceFinds(db: Db, id: int, h: Holiday)
    ensures var r := Db(ReplaceIn(db.rows, id, h), db.nextId);
      && (Valid(db) ==> Valid(r))
      && (Valid(db) && HasId(db, id) ==> FindById(r, id) == Some(h))
  {
    var r := Db(ReplaceIn(db.rows, id, h), db.nextId);
    if Valid(db) {
      assert Valid(r);
      if HasId(db, id) {
        var x :| x in db.rows && x.id == id;
        var i :| 0 <= i < |db.rows| && db.rows[i] == x;
        assert r.rows[i] == Row(id, h);
        FindByIdOfRow(r, r.rows[i]);
      }
    }
  }

  /** `deleteAllByIdInBatch`: removes exactly the rows whose id is listed
      and nothing else. */
  function DeleteAllByIdInBatch(db: Db, ids: set<int>): (r: Db)
    ensures forall x :: x in r.rows <==> x in db.rows && x.id !in ids
    ensures r.nextId == db.nextId
    ensures Valid(db) ==> Valid(r)
    ensures Valid(db) ==> forall k :: FindById(r, k) == (if k in ids then None else FindById(db, k))
  {
    DeleteFacts(db, ids);
    Db(FilterRows(db.rows, (x: Row) => x.id !in ids), db.nextId)
  }

  lemma DeleteFacts(db: Db, ids: set<int>)
    ensures var r := Db(FilterRows(db.rows, (x: Row) => x.id !in ids), db.nextId);
      Valid(db) ==> Valid(r) && forall k :: FindById(r, k) == (if k in ids then None else FindById(db, k))
  {
    var r := Db(FilterRows(db.rows, (x: Row) => x.id !in ids), db.nextId);
    FilterKeepsValid(db.rows, (x: Row) => x.id !in ids, db.nextId);
    if Valid(db) {
      forall k ensures FindById(r, k) == (if k in ids then None else FindById(db, k)) {
        if FindById(db, k).Some? && k !in ids {
          FindByIdOfRow(r, Row(k, FindById(db, k).value));
        }
      }
    }
  }

  // ---------------------------------------------------------------------
  // Derived queries of HolidayRepository.

  function ExistsIn(rows: seq<Row>, code: string, date: Date): (b: bool)
    ensures b <==> exists x :: x in rows && x.holiday.countryCode == code && x.holiday.date == date
  {
    if |rows| == 0 then false
    else (rows[0].holiday.countryCode == code && rows[0].holiday.date == date)
         || ExistsIn(rows[1..], code, date)
  }

  /** `existsByCountryCodeAndDate`: some stored record has that code and
      date. */
  function ExistsByCountryCodeAndDate(db: Db, code: string, date: Date): (b: bool)
    ensures b <==> exists x :: x in db.rows && x.holiday.countryCode == code && x.holiday.date == date
  {
    ExistsIn(db.rows, code, date)
  }

  /** `findByCountryCodeAndDateBetween`: the records with that code whose
      date lies in [start, end], both ends inclusive, in stored order. */
  function FindByCountryCodeAndDateBetween(db: Db, code: string, start: Date, end: Date): (r: seq<Row>)
    ensures forall x :: x in r <==>
      x in db.rows && x.holiday.countryCode == code && NotAfter(start, x.holiday.date) && NotAfter(x.holiday.date, end)
  {
    FilterRows(db.rows, (x: Row) => x.holiday.countryCode == code && InRange(x.holiday.date, DateRange(start, end)))
  }

  /** A record of the reconciliation partition: that code, that exact
      country name, a date in the range. */
  predicate InPartition(h: Holiday, code: string, name: string, range: DateRange) {
    h.countryCode == code && h.countryName == name && InRange(h.date, range)
  }

  /** `findByCountryCodeAndCountryNameAndDateBetween`: as above, but the
      country name must also match exactly, so a record stored under
      another name for the same code is not returned. */
  function FindByCountryCodeAndCountryNameAndDateBetween(db: Db, code: string, name: string,
                                                         start: Date, end: Date): (r: seq<Row>)
    ensures forall x :: x in r <==> x in db.rows && InPartition(x.holiday, code, name, DateRange(start, end))
    ensures Valid(db) ==> Valid(Db(r, db.nextId))
  {
    var keep := (x: Row) => InPartition(x.holiday, code, name, DateRange(start, end));
    FilterKeepsValid(db.rows, keep, db.nextId);
    FilterRows(db.rows, keep)
  }

  /** `deleteByCountryCodeAndYear`: removes exactly the records with that
      code and a date in [Jan 1, Dec 31] of the year, returns how many it
      removed (as many as the partition query finds), and keeps every
      other record. */
  function DeleteByCountryCodeAndYear(db: Db, code: string, year: int): (r: (Db, int))
    requires ValidYear(year)
    ensures forall x :: x in r.0.rows <==>
      x in db.rows && !(x.holiday.countryCode == code && InRange(x.holiday.date, GetYearRange(year)))
    ensures r.1 == |db.rows| - |r.0.rows|
    ensures r.1 == |FindByCountryCodeAndDateBetween(db, code, GetYearStartDate(year), GetYearEndDate(year))|
    ensures r.0.nextId == db.nextId
    ensures Valid(db) ==> Valid(r.0)
  {
    var range := GetYearRange(year);
    var doomed := (x: Row) => x.holiday.countryCode == code && InRange(x.holiday.date, range);
    var kept := FilterRows(db.rows, (x: Row) => !doomed(x));
    FilterSplitsRows(db.rows, doomed);
    assert FilterRows(db.rows, doomed)
        == FindByCountryCodeAndDateBetween(db, code, GetYearStartDate(year), GetYearEndDate(year));
    FilterKeepsValid(db.rows, (x: Row) => !doomed(x), db.nextId);
    (Db(kept, db.nextId), |db.rows| - |kept|)
  }
}
