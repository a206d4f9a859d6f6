/** What the ingestion drivers share: the country list as fetched, and the
    code-to-name map built from it with `Collectors.toMap` and a merge
    function that keeps the existing value. */
module CountryList {
  import opened Wrappers
  import opened Entity

  /** `getAvailableCountries` as the drivers see it: a failed call is
      logged and read as the empty list. */
  function CountriesOrEmpty(countries: Option<seq<Country>>): (cs: seq<Country>)
    ensures countries.None? ==> cs == []
    ensures countries.Some? ==> cs == countries.value
  {
    countries.GetOr([])
  }

  /** The name of the first listed country carrying `code`, if any. */
  function FirstName(cs: seq<Country>, code: string): Option<string> {
    if |cs| == 0 then None
    else if cs[0].countryCode == code then Some(cs[0].name)
    else FirstName(cs[1..], code)
  }

  /** `FirstName` finds a country exactly when some country has the code,
      and the name it finds belongs to the earliest of them. */
  lemma {:induction false} FirstNameMeaning(cs: seq<Country>, code: string)
    ensures FirstName(cs, code).Some? <==> exists i :: 0 <= i < |cs| && cs[i].countryCode == code
    ensures forall i ::
              0 <= i < |cs| && cs[i].countryCode == code && (forall j :: 0 <= j < i ==> cs[j].countryCode != code)
              ==> FirstName(cs, code) == Some(cs[i].name)
  {
    if |cs| > 0 {
      FirstNameMeaning(cs[1..], code);
      if cs[0].countryCode != code {
        if exists i :: 0 <= i < |cs| && cs[i].countryCode == code {
          var i :| 0 <= i < |cs| && cs[i].countryCode == code;
          assert cs[1..][i - 1] == cs[i];
        }
        forall i | 0 <= i < |cs| && cs[i].countryCode == code && (forall j :: 0 <= j < i ==> cs[j].countryCode != code)
          ensures FirstName(cs, code) == Some(cs[i].name)
        {
          assert cs[1..][i - 1] == cs[i];
          forall j | 0 <= j < i - 1 ensures cs[1..][j].countryCode != code {
            assert cs[1..][j] == cs[j + 1];
          }
        }
      }
    }
  }

  /** Appending a country changes the first name of its code only when the
      code was not listed before. */
  lemma {:induction false} FirstNameSnoc(cs: seq<Country>, c: Country, code: string)
    ensures FirstName(cs + [c], code)
         == if FirstName(cs, code).Some? then FirstName(cs, code)
            else if c.countryCode == code then Some(c.name) else None
  {
    if |cs| > 0 {
      assert (cs + [c])[1..] == cs[1..] + [c];
      FirstNameSnoc(cs[1..], c, code);
    }
  }

  /** `createCountryNameMap`: the countries folded into a map in list
      order, a repeated code keeping the name stored first. */
  function CountryNameMap(cs: seq<Country>): (m: map<string, string>)
    ensures forall code :: code in m <==> FirstName(cs, code).Some?
    ensures forall code :: code in m ==> Some(m[code]) == FirstName(cs, code)
  {
    if |cs| == 0 then map[]
    else
      var front := cs[..|cs| - 1];
      var c := cs[|cs| - 1];
      var m := CountryNameMap(front);
      assert cs == front + [c];
      FirstNameSnocAll(front, c);
      if c.countryCode in m then m else m[c.countryCode := c.name]
  }

  lemma FirstNameSnocAll(cs: seq<Country>, c: Country)
    ensures forall code ::
              FirstName(cs + [c], code)
              == if FirstName(cs, code).Some? then FirstName(cs, code)
                 else if c.countryCode == code then Some(c.name) else None
  {
    forall code {
      FirstNameSnoc(cs, c, code);
    }
  }

  /** Every listed code is in the map, and a code listed once maps to its
      own country's name. */
  lemma CountryNameMapCovers(cs: seq<Country>, i: int)
    requires 0 <= i < |cs|
    ensures cs[i].countryCode in CountryNameMap(cs)
    ensures (forall j :: 0 <= j < i ==> cs[j].countryCode != cs[i].countryCode)
      ==> CountryNameMap(cs)[cs[i].countryCode] == cs[i].name
  {
    FirstNameMeaning(cs, cs[i].countryCode);
  }

  /** No two countries share a code. */
  predicate DistinctCodes(cs: seq<Country>) {
    forall i, j :: 0 <= i < j < |cs| ==> cs[i].countryCode != cs[j].countryCode
  }
}
