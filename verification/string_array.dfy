/** `StringArrayUtils`: the comma-list codec that stores a holiday's `types`
    and `counties` lists in one text column.

    `joinFromList` is `String.join(",", list)` and `splitToList` is
    `String.split(",")`, whose limit-0 form drops trailing empty fields.  That
    dropping is why the round trip is conditional. */
module StringArrayUtils {
  import opened Wrappers

  /** The fields of `s` cut at every comma: one more field than `s` has
      commas, empty fields included. */
  function Fields(s: string): (r: seq<string>)
    ensures |r| >= 1
  {
    if |s| == 0 then [""]
    else
      var rest := Fields(s[1..]);
      if s[0] == ',' then [""] + rest
      else [[s[0]] + rest[0]] + rest[1..]
  }

  /** Removes the empty fields at the end of a split result. */
  function DropTrailingEmpty(xs: seq<string>): seq<string>
  {
    if |xs| > 0 && xs[|xs| - 1] == "" then DropTrailingEmpty(xs[..|xs| - 1]) else xs
  }

  /** `s.split(",")`: without a comma the result is `[s]`; otherwise the
      comma-separated fields with the trailing empty ones removed. */
  function JavaSplit(s: string): seq<string>
  {
    if ',' !in s then [s] else DropTrailingEmpty(Fields(s))
  }

  /** `String.join(",", xs)`. */
  function Join(xs: seq<string>): string
  {
    if |xs| == 0 then ""
    else if |xs| == 1 then xs[0]
    else xs[0] + "," + Join(xs[1..])
  }

  /** `splitToList`: a null or empty string gives the empty list (never
      null); any other string is split at its commas. */
  function SplitToList(str: Option<string>): (r: seq<string>)
    ensures (str == None || str == Some("")) ==> r == []
    ensures str.Some? && str.value != "" && ',' !in str.value ==> r == [str.value]
    ensures forall i :: 0 <= i < |r| ==> ',' !in r[i]
  {
    SplitHasNoCommas(if str.Some? then str.value else "");
    if str.Some? && str.value != "" then JavaSplit(str.value) else []
  }

  /** The fields of every element, one after another. */
  function FieldsOfEach(xs: seq<string>): seq<string> {
    if |xs| == 0 then [] else Fields(xs[0]) + FieldsOfEach(xs[1..])
  }

  /** `joinFromList`: null for a null or empty list, otherwise the elements
      separated by single commas: cutting the result at every comma gives
      the fields of each element in turn, which are exactly the elements
      when none of them holds a comma. */
  function JoinFromList(list: Option<seq<string>>): (r: Option<string>)
    ensures r == None <==> (list == None || list == Some([]))
    ensures r.Some? ==> Fields(r.value) == FieldsOfEach(list.value)
    ensures r.Some? ==>
              ((forall i :: 0 <= i < |list.value| ==> ',' !in list.value[i]) ==> Fields(r.value) == list.value)
  {
    if list.Some? && |list.value| > 0 then
      FieldsOfJoinAll(list.value);
      FieldsOfJoinWhenCommaFree(list.value);
      Some(Join(list.value))
    else None
  }

  // ---------------------------------------------------------------------
  // Facts about fields and joins.

  lemma {:induction false} FieldsHaveNoCommas(s: string)
    ensures forall i :: 0 <= i < |Fields(s)| ==> ',' !in Fields(s)[i]
  {
    if |s| > 0 {
      FieldsHaveNoCommas(s[1..]);
    }
  }

  lemma {:induction false} DropTrailingEmptyIsPrefix(xs: seq<string>)
    ensures |DropTrailingEmpty(xs)| <= |xs|
    ensures DropTrailingEmpty(xs) == xs[..|DropTrailingEmpty(xs)|]
    decreases |xs|
  {
    if |xs| > 0 && xs[|xs| - 1] == "" {
      DropTrailingEmptyIsPrefix(xs[..|xs| - 1]);
    }
  }

  lemma SplitHasNoCommas(s: string)
    ensures forall i :: 0 <= i < |JavaSplit(s)| ==> ',' !in JavaSplit(s)[i]
  {
    if ',' in s {
      FieldsHaveNoCommas(s);
      DropTrailingEmptyIsPrefix(Fields(s));
      var d := DropTrailingEmpty(Fields(s));
      forall i | 0 <= i < |d| ensures ',' !in d[i] {
        assert d[i] == Fields(s)[i];
      }
    }
  }

  /** A comma-free prefix `a` only extends the first field. */
  lemma {:induction false} FieldsOfCommaFreePrefix(a: string, t: string)
    requires ',' !in a
    ensures Fields(a + t) == [a + Fields(t)[0]] + Fields(t)[1..]
    decreases |a|
  {
    if |a| > 0 {
      assert (a + t)[1..] == a[1..] + t;
      FieldsOfCommaFreePrefix(a[1..], t);
      assert [a[0]] + (a[1..] + Fields(t)[0]) == a + Fields(t)[0];
    } else {
      assert a + t == t;
      assert a + Fields(t)[0] == Fields(t)[0];
      assert [Fields(t)[0]] + Fields(t)[1..] == Fields(t);
    }
  }

  lemma FieldsOfCommaFree(a: string)
    requires ',' !in a
    ensures Fields(a) == [a]
  {
    FieldsOfCommaFreePrefix(a, "");
    assert a + "" == a;
  }

  /** Splitting a join at every comma gives back the elements, provided none
      of them holds a comma. */
  lemma {:induction false} FieldsOfJoin(xs: seq<string>)
    requires |xs| >= 1
    requires forall i :: 0 <= i < |xs| ==> ',' !in xs[i]
    ensures Fields(Join(xs)) == xs
  {
    if |xs| == 1 {
      FieldsOfCommaFree(xs[0]);
    } else {
      FieldsOfJoin(xs[1..]);
      var t := "," + Join(xs[1..]);
      assert xs[0] + "," + Join(xs[1..]) == xs[0] + t;
      FieldsOfCommaFreePrefix(xs[0], t);
      assert t[1..] == Join(xs[1..]);
      assert Fields(t) == [""] + xs[1..];
      assert xs[0] + "" == xs[0];
      assert [xs[0]] + xs[1..] == xs;
    }
  }

  /** Cutting at a comma splits the fields between the two sides. */
  lemma {:induction false} FieldsOfSeparated(a: string, b: string)
    ensures Fields(a + "," + b) == Fields(a) + Fields(b)
    decreases |a|
  {
    var s := a + "," + b;
    if |a| == 0 {
      assert s == "," + b;
      FieldsUnfold(s);
      assert s[1..] == b;
    } else {
      var t := a[1..] + "," + b;
      assert s[0] == a[0] && s[1..] == t;
      var f, g, rest := Fields(a[1..]), Fields(b), Fields(t);
      assert rest == f + g by {
        FieldsOfSeparated(a[1..], b);
      }
      assert Fields(s) == if a[0] == ',' then [""] + rest else [[a[0]] + rest[0]] + rest[1..] by {
        FieldsUnfold(s);
      }
      assert Fields(a) == if a[0] == ',' then [""] + f else [[a[0]] + f[0]] + f[1..] by {
        FieldsUnfold(a);
      }
      if a[0] != ',' {
        GlueHead([a[0]], f, g);
      }
    }
  }

  /** One step of `Fields` on a non-empty string. */
  lemma FieldsUnfold(s: string)
    requires |s| > 0
    ensures var rest := Fields(s[1..]);
      Fields(s) == if s[0] == ',' then [""] + rest else [[s[0]] + rest[0]] + rest[1..]
  {
  }

  /** Gluing a prefix onto the first field commutes with appending more
      fields. */
  lemma GlueHead<T>(c: seq<T>, f: seq<seq<T>>, g: seq<seq<T>>)
    requires |f| >= 1
    ensures [c + (f + g)[0]] + (f + g)[1..] == ([c + f[0]] + f[1..]) + g
  {
    assert (f + g)[0] == f[0];
    assert (f + g)[1..] == f[1..] + g;
  }

  /** The fields of a join are the fields of its elements in turn, whether
      or not they hold commas. */
  lemma {:induction false} FieldsOfJoinAll(xs: seq<string>)
    requires |xs| >= 1
    ensures Fields(Join(xs)) == FieldsOfEach(xs)
  {
    if |xs| == 1 {
      assert FieldsOfEach(xs) == Fields(xs[0]) + FieldsOfEach([]);
    } else {
      FieldsOfJoinAll(xs[1..]);
      FieldsOfSeparated(xs[0], Join(xs[1..]));
    }
  }

  lemma FieldsOfJoinWhenCommaFree(xs: seq<string>)
    requires |xs| >= 1
    ensures (forall i :: 0 <= i < |xs| ==> ',' !in xs[i]) ==> Fields(Join(xs)) == xs
  {
    if forall i :: 0 <= i < |xs| ==> ',' !in xs[i] {
      FieldsOfJoin(xs);
    }
  }

  /** Prepending a character to the first element prepends it to the join. */
  lemma JoinConsHead(c: char, x: string, ys: seq<string>)
    ensures Join([[c] + x] + ys) == [c] + Join([x] + ys)
  {
    assert ([[c] + x] + ys)[1..] == ys;
    assert ([x] + ys)[1..] == ys;
  }

  /** Joining the fields of a string gives back the string. */
  lemma {:induction false} JoinOfFields(s: string)
    ensures Join(Fields(s)) == s
  {
    if |s| > 0 {
      var rest := Fields(s[1..]);
      JoinOfFields(s[1..]);
      if s[0] == ',' {
        assert ([""] + rest)[1..] == rest;
        assert s == [','] + s[1..];
      } else {
        JoinConsHead(s[0], rest[0], rest[1..]);
        assert [rest[0]] + rest[1..] == rest;
        assert s == [s[0]] + s[1..];
      }
    }
  }

  /** There is one field more than there are commas. */
  lemma {:induction false} FieldsCount(s: string)
    ensures |Fields(s)| == multiset(s)[','] + 1
  {
    if |s| > 0 {
      FieldsCount(s[1..]);
      assert s == [s[0]] + s[1..];
      assert multiset(s) == multiset([s[0]]) + multiset(s[1..]);
    }
  }

  /** The last field is the text after the last comma, so it is non-empty
      when `s` is non-empty and does not end with a comma. */
  lemma {:induction false} LastFieldNonEmpty(s: string)
    requires |s| > 0 && s[|s| - 1] != ','
    ensures Fields(s)[|Fields(s)| - 1] != ""
  {
    var rest := Fields(s[1..]);
    if |s| > 1 {
      LastFieldNonEmpty(s[1..]);
    }
    if s[0] == ',' {
      assert |s| > 1;
    } else if |rest| > 1 {
      assert |s| > 1;
    }
  }

  lemma DropTrailingEmptyKeeps(xs: seq<string>)
    requires |xs| > 0 && xs[|xs| - 1] != ""
    ensures DropTrailingEmpty(xs) == xs
  {
  }

  // ---------------------------------------------------------------------
  // The round trips.

  /** split(join(xs)) == xs for a non-empty list of comma-free elements whose
      last element is non-empty; the last condition is needed because split
      drops trailing empty fields. */
  lemma SplitJoinRoundTrip(xs: seq<string>)
    requires |xs| > 0
    requires forall i :: 0 <= i < |xs| ==> ',' !in xs[i]
    requires xs[|xs| - 1] != ""
    ensures SplitToList(JoinFromList(Some(xs))) == xs
  {
    var s := Join(xs);
    FieldsOfJoin(xs);
    if ',' !in s {
      FieldsOfCommaFree(s);
    } else {
      DropTrailingEmptyKeeps(xs);
    }
  }

  /** join(split(s)) == s for every non-empty `s` that does not end with a
      comma. */
  lemma JoinSplitRoundTrip(s: string)
    requires |s| > 0 && s[|s| - 1] != ','
    ensures JoinFromList(Some(SplitToList(Some(s)))) == Some(s)
  {
    if ',' in s {
      LastFieldNonEmpty(s);
      DropTrailingEmptyKeeps(Fields(s));
      JoinOfFields(s);
    }
  }

  /** For such an `s` the split has one element more than `s` has commas. */
  lemma SplitCount(s: string)
    requires |s| > 0 && s[|s| - 1] != ','
    ensures |SplitToList(Some(s))| == multiset(s)[','] + 1
  {
    FieldsCount(s);
    if ',' in s {
      LastFieldNonEmpty(s);
      DropTrailingEmptyKeeps(Fields(s));
    } else {
      assert multiset(s)[','] == 0;
    }
  }

  /** Without the conditions the round trips fail: a trailing empty element
      is lost, and a trailing comma is lost. */
  lemma RoundTripCounterexamples()
    ensures SplitToList(JoinFromList(Some(["a", ""]))) == ["a"]
    ensures JoinFromList(Some(SplitToList(Some("a,")))) == Some("a")
    ensures SplitToList(Some(",")) == []
  {
    assert Join(["a", ""]) == "a,";
    assert Fields(",") == ["", ""] by {
      assert ","[1..] == "";
      assert Fields("") == [""];
    }
    assert Fields("a,") == ["a", ""] by {
      assert "a,"[1..] == ",";
      assert ['a'] + "" == "a";
    }
    assert ',' in "a," by { assert "a,"[1] == ','; }
    assert DropTrailingEmpty(["a", ""]) == ["a"] by {
      assert ["a", ""][..1] == ["a"];
    }
    assert ',' in "," by { assert ","[0] == ','; }
    assert DropTrailingEmpty(["", ""]) == [] by {
      assert ["", ""][..1] == [""];
      assert [""][..0] == [];
    }
  }
}
