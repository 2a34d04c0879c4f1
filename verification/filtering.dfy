/**
 * The sidebar selections and the filter they drive: keep the rows whose
 * country and gender were both selected, then sort by country and gender.
 */
module Filtering {
  import opened Wrappers
  import Text
  import Sorting
  import opened Dataset

  /** No value occurs twice. */
  predicate Distinct<T(==)>(s: seq<T>) {
    forall i, j :: 0 <= i < j < |s| ==> s[i] != s[j]
  }

  /** The Country column, in row order. */
  function Countries(rows: seq<Record>): (cs: seq<string>)
    ensures |cs| == |rows|
    ensures forall i :: 0 <= i < |rows| ==> cs[i] == rows[i].country
  {
    seq(|rows|, i requires 0 <= i < |rows| => rows[i].country)
  }

  /** `xs` with every occurrence of `v` removed. */
  function Without(xs: seq<string>, v: string): (r: seq<string>)
    ensures |r| <= |xs|
    ensures forall x :: x in r <==> x in xs && x != v
  {
    if |xs| == 0 then []
    else if xs[0] == v then Without(xs[1..], v)
    else [xs[0]] + Without(xs[1..], v)
  }

  /** The distinct values of `xs` in order of first appearance, as `Series.unique()` lists them. */
  function Unique(xs: seq<string>): (r: seq<string>)
    ensures forall x :: x in r <==> x in xs
    ensures Distinct(r)
    decreases |xs|
  {
    if |xs| == 0 then
      []
    else
      var tail := Unique(Without(xs[1..], xs[0]));
      assert forall j :: 0 <= j < |tail| ==> tail[j] != xs[0] by {
        forall j | 0 <= j < |tail| ensures tail[j] != xs[0] {
          assert tail[j] in tail;
        }
      }
      [xs[0]] + tail
  }

  /** Removing a value from a list with one more value appended. */
  lemma WithoutSnoc(xs: seq<string>, v: string, w: string)
    ensures Without(xs + [v], w) == Without(xs, w) + (if v != w then [v] else [])
  {
    if |xs| > 0 {
      assert (xs + [v])[1..] == xs[1..] + [v];
      WithoutSnoc(xs[1..], v, w);
    }
  }

  /** Appending a value adds it to the distinct values only when it is new. */
  lemma {:induction false} UniqueSnoc(xs: seq<string>, v: string)
    ensures Unique(xs + [v]) ==
              if v in xs then Unique(xs) else Unique(xs) + [v]
    decreases |xs|
  {
    if |xs| == 0 {
      assert xs + [v] == [v];
    } else {
      var w := xs[0];
      assert (xs + [v])[1..] == xs[1..] + [v];
      WithoutSnoc(xs[1..], v, w);
      var rest := Without(xs[1..], w);
      if v == w {
        assert Without(xs[1..] + [v], w) == rest;
      } else {
        UniqueSnoc(rest, v);
        assert v in rest <==> v in xs;
      }
    }
  }

  /** A string used as a sort key on its own. */
  function SingleKey(s: string): Sorting.Key {
    (s, "")
  }

  /** A record's sort key: Country, then Gender. */
  function CountryGender(r: Record): Sorting.Key {
    (r.country, r.gender)
  }

  lemma {:induction false} DistinctAtMostOnce<T>(s: seq<T>, x: T)
    requires Distinct(s)
    ensures multiset(s)[x] <= 1
  {
    if |s| > 0 {
      assert s == [s[0]] + s[1..];
      DistinctAtMostOnce(s[1..], x);
      if s[0] == x {
        assert x !in s[1..];
      }
    }
  }

  lemma RepeatedTwice<T>(s: seq<T>, i: nat, j: nat)
    requires i < j < |s| && s[i] == s[j]
    ensures multiset(s)[s[i]] >= 2
  {
    assert s == s[..i] + [s[i]] + s[i + 1..j] + [s[j]] + s[j + 1..];
  }

  /** Reordering a list without duplicates leaves it without duplicates. */
  lemma DistinctPermutation<T>(a: seq<T>, b: seq<T>)
    requires multiset(a) == multiset(b) && Distinct(b)
    ensures Distinct(a)
  {
    forall i, j | 0 <= i < j < |a|
      ensures a[i] != a[j]
    {
      if a[i] == a[j] {
        RepeatedTwice(a, i, j);
        DistinctAtMostOnce(b, a[i]);
      }
    }
  }

  /**
   * The country options and their default: every distinct country of the
   * table, once each, in ascending order.
   */
  function DefaultCountries(rows: seq<Record>): (cs: seq<string>)
    ensures forall c :: c in cs <==> exists i :: 0 <= i < |rows| && rows[i].country == c
    ensures Distinct(cs)
    ensures forall i, j :: 0 <= i < j < |cs| ==> Text.Less(cs[i], cs[j])
  {
    var u := Unique(Countries(rows));
    var cs := Sorting.SortBy(u, SingleKey);
    PermutationSameElements(cs, u);
    CountriesOfRows(rows);
    DistinctPermutation(cs, u);
    SortedDistinctIsStrict(cs);
    cs
  }

  /** Two orderings of the same values hold the same values. */
  lemma PermutationSameElements<T>(a: seq<T>, b: seq<T>)
    requires multiset(a) == multiset(b)
    ensures forall x :: x in a <==> x in b
  {
    forall x ensures x in a <==> x in b {
      assert x in a <==> x in multiset(a);
    }
  }

  /** A country is in the Country column exactly when some row has it. */
  lemma CountriesOfRows(rows: seq<Record>)
    ensures forall c :: c in Countries(rows) <==> exists i :: 0 <= i < |rows| && rows[i].country == c
  {
    forall c | c in Countries(rows)
      ensures exists i :: 0 <= i < |rows| && rows[i].country == c
    {
      var i :| 0 <= i < |Countries(rows)| && Countries(rows)[i] == c;
      assert rows[i].country == c;
    }
  }

  /** Strings sorted by their own order and all different are strictly ascending. */
  lemma SortedDistinctIsStrict(cs: seq<string>)
    requires Sorting.SortedBy(cs, SingleKey) && Distinct(cs)
    ensures forall i, j :: 0 <= i < j < |cs| ==> Text.Less(cs[i], cs[j])
  {
    forall i, j | 0 <= i < j < |cs|
      ensures Text.Less(cs[i], cs[j])
    {
      assert Sorting.KeyLe(SingleKey(cs[i]), SingleKey(cs[j]));
    }
  }

  /** The gender options and their default. */
  const DefaultGenders: seq<string> := ["M", "F"]

  /** `r` passes both `isin` tests. */
  predicate Selected(r: Record, countries: seq<string>, genders: seq<string>) {
    r.country in countries && r.gender in genders
  }

  /**
   * Keeps, in order, exactly the rows whose country is among `countries` and
   * whose gender is among `genders`; each kept row keeps its multiplicity and
   * its field values.
   */
  function Filter(rows: seq<Record>, countries: seq<string>, genders: seq<string>): (r: seq<Record>)
    ensures forall x :: x in r <==> x in rows && Selected(x, countries, genders)
    ensures |countries| == 0 || |genders| == 0 ==> r == []
  {
    if |rows| == 0 then
      []
    else
      var last := rows[|rows| - 1];
      var kept := Filter(rows[..|rows| - 1], countries, genders);
      assert rows == rows[..|rows| - 1] + [last];
      if Selected(last, countries, genders) then kept + [last] else kept
  }

  /** Every selected row is kept as often as it occurs, and no other row is kept. */
  lemma {:induction false} FilterCounts(rows: seq<Record>, countries: seq<string>, genders: seq<string>)
    ensures forall x :: multiset(Filter(rows, countries, genders))[x] ==
                          if Selected(x, countries, genders) then multiset(rows)[x] else 0
  {
    if |rows| > 0 {
      var init := rows[..|rows| - 1];
      var last := rows[|rows| - 1];
      assert rows == init + [last];
      FilterCounts(init, countries, genders);
      FilterSnoc(init, last, countries, genders);
    }
  }

  /** Appending a row appends it to the filtered rows exactly when it is selected. */
  lemma FilterSnoc(rows: seq<Record>, r: Record, countries: seq<string>, genders: seq<string>)
    ensures Filter(rows + [r], countries, genders)
            == Filter(rows, countries, genders) + (if Selected(r, countries, genders) then [r] else [])
  {
    assert (rows + [r])[..|rows|] == rows;
  }

  /** Filtering commutes with concatenation, so the original row order is kept. */
  lemma {:induction false} FilterAppend(a: seq<Record>, b: seq<Record>, countries: seq<string>, genders: seq<string>)
    ensures Filter(a + b, countries, genders) == Filter(a, countries, genders) + Filter(b, countries, genders)
    decreases |b|
  {
    if |b| == 0 {
      assert a + b == a;
    } else {
      var b' := b[..|b| - 1];
      var last := b[|b| - 1];
      assert b == b' + [last];
      assert a + b == (a + b') + [last];
      FilterAppend(a, b', countries, genders);
      FilterSnoc(a + b', last, countries, genders);
      FilterSnoc(b', last, countries, genders);
    }
  }

  /** When every row is selected, the filter returns the table unchanged. */
  lemma {:induction false} FilterKeepsAllSelected(rows: seq<Record>, countries: seq<string>, genders: seq<string>)
    requires forall i :: 0 <= i < |rows| ==> Selected(rows[i], countries, genders)
    ensures Filter(rows, countries, genders) == rows
  {
    if |rows| > 0 {
      var init := rows[..|rows| - 1];
      var last := rows[|rows| - 1];
      assert rows == init + [last];
      assert Selected(last, countries, genders);
      FilterKeepsAllSelected(init, countries, genders);
      FilterSnoc(init, last, countries, genders);
    }
  }

  /**
   * With the default selections, a table whose gender codes are all `M` or
   * `F` is shown in full.
   */
  lemma DefaultSelectionKeepsAll(rows: seq<Record>)
    requires forall i :: 0 <= i < |rows| ==> rows[i].gender == "M" || rows[i].gender == "F"
    ensures Filter(rows, DefaultCountries(rows), DefaultGenders) == rows
  {
    FilterKeepsAllSelected(rows, DefaultCountries(rows), DefaultGenders);
  }

  /**
   * `sort_values(by=["Country", "Gender"])`: a reordering of the rows that is
   * ascending in country and, within a country, in gender.
   */
  function SortByCountryGender(rows: seq<Record>): (r: seq<Record>)
    ensures multiset(r) == multiset(rows)
    ensures forall i, j :: 0 <= i < j < |r| ==>
              || Text.Less(r[i].country, r[j].country)
              || (r[i].country == r[j].country && Text.LessEq(r[i].gender, r[j].gender))
  {
    var r := Sorting.SortBy(rows, CountryGender);
    assert forall i, j :: 0 <= i < j < |r| ==> Sorting.KeyLe(CountryGender(r[i]), CountryGender(r[j]));
    r
  }

  /** The table view: the selected rows, sorted. */
  function FilteredView(rows: seq<Record>, countries: seq<string>, genders: seq<string>): (v: seq<Record>)
    ensures forall x :: multiset(v)[x] == if Selected(x, countries, genders) then multiset(rows)[x] else 0
    ensures forall i, j :: 0 <= i < j < |v| ==>
              || Text.Less(v[i].country, v[j].country)
              || (v[i].country == v[j].country && Text.LessEq(v[i].gender, v[j].gender))
  {
    FilterCounts(rows, countries, genders);
    SortByCountryGender(Filter(rows, countries, genders))
  }

  const ExampleUsMale := Record("US", "M", 30, Some(Blue))
  const ExampleUsFemale := Record("US", "F", 25, Some(Red))
  const ExampleFrMale := Record("FR", "M", 40, Some(Blue))

  lemma ExampleKeys()
    ensures !Sorting.KeyLe(CountryGender(ExampleUsMale), CountryGender(ExampleUsFemale))
    ensures !Sorting.KeyLe(CountryGender(ExampleUsFemale), CountryGender(ExampleFrMale))
  {
  }


  lemma ExampleFilterKeepsAll()
    ensures var rows := [ExampleUsMale, ExampleUsFemale, ExampleFrMale];
            Filter(rows, ["US", "FR"], DefaultGenders) == rows
  {
    var rows := [ExampleUsMale, ExampleUsFemale, ExampleFrMale];
    assert forall i :: 0 <= i < |rows| ==> Selected(rows[i], ["US", "FR"], DefaultGenders) by {
      assert "US" == ["US", "FR"][0] && "FR" == ["US", "FR"][1];
      assert "M" == DefaultGenders[0] && "F" == DefaultGenders[1];
    }
    FilterKeepsAllSelected(rows, ["US", "FR"], DefaultGenders);
  }

  /**
   * A worked example: rows (US, M, 30), (US, F, 25), (FR, M, 40) with both
   * countries and both genders selected come out as FR/M, US/F, US/M.
   */
  lemma ThreeRowExample()
    ensures FilteredView([ExampleUsMale, ExampleUsFemale, ExampleFrMale], ["US", "FR"], DefaultGenders)
            == [ExampleFrMale, ExampleUsFemale, ExampleUsMale]
  {
    var rows := [ExampleUsMale, ExampleUsFemale, ExampleFrMale];
    ExampleFilterKeepsAll();
    ExampleKeys();
    Sorting.SortReversedTriple(ExampleUsMale, ExampleUsFemale, ExampleFrMale, CountryGender);
  }
}
