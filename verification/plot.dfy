/**
 * The chart layout: walk the distinct countries of the filtered view in order
 * of appearance and, within each, that country's rows; every row becomes the
 * next bar and tick. The legend is fixed.
 */
module Plot {
  import opened Wrappers
  import Text
  import opened Dataset
  import Filtering

  /** One bar: its x position, its height (the age) and its colour. */
  datatype Bar = Bar(x: int, height: int, color: Option<Color>)

  /** One legend handle: a colour swatch and its text. */
  datatype LegendEntry = LegendEntry(color: Color, text: string)

  /** Everything the figure shows: bars, tick positions and labels, and the legend. */
  datatype Chart = Chart(bars: seq<Bar>, ticks: seq<int>, labels: seq<string>, legend: seq<LegendEntry>)

  /** The legend, the same whatever is selected. */
  const Legend: seq<LegendEntry> := [LegendEntry(Blue, "Male"), LegendEntry(Red, "Female")]

  /** A tick label: the country, a line break, then the gender code. */
  function TickLabel(country: string, gender: string): (r: string)
    ensures |r| == |country| + 1 + |gender|
    ensures r[..|country|] == country && r[|country|] == '\n' && r[|country| + 1..] == gender
  {
    country + "\n" + gender
  }

  /**
   * A country name without a line break can be read back from its tick
   * label, and so can the gender: the label is the first line break's split.
   */
  lemma TickLabelInjective(c1: string, g1: string, c2: string, g2: string)
    requires '\n' !in c1 && '\n' !in c2
    requires TickLabel(c1, g1) == TickLabel(c2, g2)
    ensures c1 == c2 && g1 == g2
  {
  }

  /** The rows of `rows` whose country is `c`, in order: `df[df['Country'] == c]`. */
  function Group(rows: seq<Record>, c: string): (g: seq<Record>)
    ensures forall i :: 0 <= i < |g| ==> g[i].country == c
  {
    if |rows| == 0 then
      []
    else
      var init := Group(rows[..|rows| - 1], c);
      var last := rows[|rows| - 1];
      if last.country == c then init + [last] else init
  }

  /** A row belongs to the group of `c` exactly when it is a row of that country. */
  lemma {:induction false} GroupContents(rows: seq<Record>, c: string)
    ensures forall x :: x in Group(rows, c) <==> x in rows && x.country == c
  {
    if |rows| > 0 {
      var init := rows[..|rows| - 1];
      GroupContents(init, c);
      assert rows == init + [rows[|rows| - 1]];
    }
  }

  /** The rows visited when the countries `cs` are walked in turn, each with its group. */
  function VisitCountries(rows: seq<Record>, cs: seq<string>): seq<Record> {
    if |cs| == 0 then []
    else VisitCountries(rows, cs[..|cs| - 1]) + Group(rows, cs[|cs| - 1])
  }

  /**
   * The order in which the layout loop visits the rows. Whatever the order
   * of the rows it is given, the loop visits every row exactly once.
   */
  function Visit(rows: seq<Record>): (v: seq<Record>)
    ensures multiset(v) == multiset(rows)
    ensures |v| == |rows|
  {
    var cs := Filtering.Unique(Filtering.Countries(rows));
    forall i | 0 <= i < |rows|
      ensures rows[i].country in cs
    {
      assert rows[i].country == Filtering.Countries(rows)[i];
    }
    VisitCountriesCovers(rows, cs);
    var v := VisitCountries(rows, cs);
    assert |multiset(v)| == |multiset(rows)|;
    v
  }

  /** Equal values of `xs` sit next to each other. */
  predicate Grouped(xs: seq<string>) {
    forall i, j, k :: 0 <= i < j < k < |xs| && xs[i] == xs[k] ==> xs[j] == xs[i]
  }

  lemma GroupSnoc(rows: seq<Record>, r: Record, c: string)
    ensures Group(rows + [r], c) == Group(rows, c) + (if r.country == c then [r] else [])
  {
  }


  lemma {:induction false} GroupAbsent(rows: seq<Record>, c: string)
    requires forall i :: 0 <= i < |rows| ==> rows[i].country != c
    ensures Group(rows, c) == []
  {
    if |rows| > 0 {
      GroupAbsent(rows[..|rows| - 1], c);
    }
  }

  /** A row outside every listed country does not change the walk over them. */
  lemma {:induction false} VisitCountriesSnocOutside(rows: seq<Record>, r: Record, cs: seq<string>)
    requires r.country !in cs
    ensures VisitCountries(rows + [r], cs) == VisitCountries(rows, cs)
  {
    if |cs| > 0 {
      VisitCountriesSnocOutside(rows, r, cs[..|cs| - 1]);
      GroupSnoc(rows, r, cs[|cs| - 1]);
    }
  }

  /** A row of a listed country is visited once more than before, with the others unchanged. */
  lemma {:induction false} VisitCountriesSnoc(rows: seq<Record>, r: Record, cs: seq<string>)
    requires Filtering.Distinct(cs)
    ensures multiset(VisitCountries(rows + [r], cs))
            == multiset(VisitCountries(rows, cs)) + (if r.country in cs then multiset{r} else multiset{})
  {
    if |cs| > 0 {
      var init := cs[..|cs| - 1];
      var c := cs[|cs| - 1];
      assert cs == init + [c];
      VisitCountriesSnoc(rows, r, init);
      GroupSnoc(rows, r, c);
      assert r.country in cs <==> r.country in init || r.country == c;
      assert r.country == c ==> r.country !in init;
    }
  }

  lemma {:induction false} VisitCountriesOfNothing(cs: seq<string>)
    ensures VisitCountries([], cs) == []
  {
    if |cs| > 0 {
      VisitCountriesOfNothing(cs[..|cs| - 1]);
    }
  }

  /** Walking distinct countries that cover every row visits each row exactly once. */
  lemma {:induction false} VisitCountriesCovers(rows: seq<Record>, cs: seq<string>)
    requires Filtering.Distinct(cs)
    requires forall i :: 0 <= i < |rows| ==> rows[i].country in cs
    ensures multiset(VisitCountries(rows, cs)) == multiset(rows)
  {
    if |rows| == 0 {
      VisitCountriesOfNothing(cs);
    } else {
      var init := rows[..|rows| - 1];
      var r := rows[|rows| - 1];
      assert rows == init + [r];
      VisitCountriesCovers(init, cs);
      VisitCountriesSnoc(init, r, cs);
    }
  }

  /** In a grouped sequence, a last value seen before sits right before it. */
  lemma GroupedRepeatIsAdjacent(xs: seq<string>)
    requires |xs| > 1 && Grouped(xs)
    requires xs[|xs| - 1] in xs[..|xs| - 1]
    ensures xs[|xs| - 2] == xs[|xs| - 1]
  {
  }


  /** A prefix of a grouped sequence is grouped. */
  lemma GroupedPrefix(xs: seq<string>, n: nat)
    requires n <= |xs| && Grouped(xs)
    ensures Grouped(xs[..n])
  {
  }

  /** In a grouped sequence the last distinct value is the last value. */
  lemma {:induction false} UniqueLastOfGrouped(xs: seq<string>)
    requires |xs| > 0 && Grouped(xs)
    ensures var u := Filtering.Unique(xs); |u| > 0 && u[|u| - 1] == xs[|xs| - 1]
  {
    var init := xs[..|xs| - 1];
    var v := xs[|xs| - 1];
    assert xs == init + [v];
    Filtering.UniqueSnoc(init, v);
    if v in init {
      GroupedRepeatIsAdjacent(xs);
      GroupedPrefix(xs, |xs| - 1);
      UniqueLastOfGrouped(init);
    }
  }

  /** A row of a new country adds that country at the end of the distinct countries. */
  lemma NewCountryGoesLast(init: seq<Record>, r: Record)
    requires r.country !in Filtering.Countries(init)
    ensures Filtering.Unique(Filtering.Countries(init + [r]))
            == Filtering.Unique(Filtering.Countries(init)) + [r.country]
  {
    assert Filtering.Countries(init + [r]) == Filtering.Countries(init) + [r.country];
    Filtering.UniqueSnoc(Filtering.Countries(init), r.country);
  }

  /** A country with no rows has an empty group. */
  lemma AbsentCountryHasNoGroup(rows: seq<Record>, c: string)
    requires c !in Filtering.Countries(rows)
    ensures Group(rows, c) == []
  {
    forall i | 0 <= i < |rows| ensures rows[i].country != c {
      assert Filtering.Countries(rows)[i] == rows[i].country;
    }
    GroupAbsent(rows, c);
  }

  /** A row of a new country opens its own group at the end of the walk. */
  lemma VisitSnocNewCountry(init: seq<Record>, r: Record)
    requires r.country !in Filtering.Countries(init)
    ensures Visit(init + [r]) == Visit(init) + [r]
  {
    var c := r.country;
    var u := Filtering.Unique(Filtering.Countries(init));
    NewCountryGoesLast(init, r);
    AbsentCountryHasNoGroup(init, c);
    GroupSnoc(init, r, c);
    assert c !in u;
    VisitCountriesSnocOutside(init, r, u);
    var u' := u + [c];
    assert u'[..|u'| - 1] == u;
    calc {
      Visit(init + [r]);
      VisitCountries(init + [r], u');
      VisitCountries(init + [r], u) + Group(init + [r], c);
      VisitCountries(init, u) + [r];
    }
  }

  /** A row of the country whose group is last adds no new country, and that country is listed last. */
  lemma LastCountryStaysLast(init: seq<Record>, r: Record)
    requires Grouped(Filtering.Countries(init + [r]))
    requires r.country in Filtering.Countries(init)
    ensures var u := Filtering.Unique(Filtering.Countries(init));
            && Filtering.Unique(Filtering.Countries(init + [r])) == u
            && |u| > 0 && u[|u| - 1] == r.country
  {
    assert Filtering.Countries(init + [r]) == Filtering.Countries(init) + [r.country];
    Filtering.UniqueSnoc(Filtering.Countries(init), r.country);
    UniqueLastOfGrouped(Filtering.Countries(init + [r]));
  }

  /** A row of the country listed last extends that country's group, at the end of the walk. */
  lemma VisitSnocLastCountry(init: seq<Record>, r: Record)
    requires var u := Filtering.Unique(Filtering.Countries(init));
             && Filtering.Unique(Filtering.Countries(init + [r])) == u
             && |u| > 0 && u[|u| - 1] == r.country
    ensures Visit(init + [r]) == Visit(init) + [r]
  {
    var c := r.country;
    var u := Filtering.Unique(Filtering.Countries(init));
    var before := u[..|u| - 1];
    assert u == before + [c];
    assert c !in before;
    VisitCountriesSnocOutside(init, r, before);
    GroupSnoc(init, r, c);
    calc {
      Visit(init + [r]);
      VisitCountries(init + [r], u);
      VisitCountries(init + [r], before) + Group(init + [r], c);
      VisitCountries(init, before) + Group(init, c) + [r];
      VisitCountries(init, u) + [r];
    }
  }

  /**
   * When each country's rows are contiguous, as after sorting by country, the
   * layout loop visits the rows exactly in their given order.
   */
  lemma {:induction false} VisitGroupedInOrder(rows: seq<Record>)
    requires Grouped(Filtering.Countries(rows))
    ensures Visit(rows) == rows
    decreases |rows|
  {
    if |rows| == 0 {
      VisitCountriesOfNothing(Filtering.Unique(Filtering.Countries(rows)));
    } else {
      var init := rows[..|rows| - 1];
      var r := rows[|rows| - 1];
      assert rows == init + [r];
      assert Filtering.Countries(init) == Filtering.Countries(rows)[..|rows| - 1];
      VisitGroupedInOrder(init);
      if r.country in Filtering.Countries(init) {
        LastCountryStaysLast(init, r);
        VisitSnocLastCountry(init, r);
      } else {
        VisitSnocNewCountry(init, r);
      }
    }
  }

  /** Rows sorted by country have each country's rows next to each other. */
  lemma SortedIsGrouped(rows: seq<Record>)
    requires forall i, j :: 0 <= i < j < |rows| ==> Text.LessEq(rows[i].country, rows[j].country)
    ensures Grouped(Filtering.Countries(rows))
  {
    var cs := Filtering.Countries(rows);
    forall i, j, k | 0 <= i < j < k < |cs| && cs[i] == cs[k]
      ensures cs[j] == cs[i]
    {
      if cs[j] != cs[i] {
        assert Text.Less(cs[i], cs[j]) && Text.Less(cs[j], cs[k]);
        Text.LessAsymmetric(cs[i], cs[j]);
      }
    }
  }

  lemma VisitFacts(rows: seq<Record>)
    ensures |Visit(rows)| == |rows|
    ensures Grouped(Filtering.Countries(rows)) ==> Visit(rows) == rows
  {
    if Grouped(Filtering.Countries(rows)) {
      VisitGroupedInOrder(rows);
    }
  }

  /**
   * `bars`, `ticks` and `labels` draw `rows` one for one, starting at x
   * position `x0`: tick and bar `j` at `x0 + j`, bar `j` with the age and
   * colour of row `j`, label `j` its country and gender.
   */
  ghost predicate Drawn(bars: seq<Bar>, ticks: seq<int>, labels: seq<string>, rows: seq<Record>, x0: int) {
    && |bars| == |rows| && |ticks| == |rows| && |labels| == |rows|
    && forall j :: 0 <= j < |rows| ==>
         && ticks[j] == x0 + j
         && bars[j] == Bar(x0 + j, rows[j].age, rows[j].color)
         && labels[j] == TickLabel(rows[j].country, rows[j].gender)
  }

  /** Drawing two runs of rows one after the other draws their concatenation. */
  lemma DrawnAppend(b1: seq<Bar>, t1: seq<int>, l1: seq<string>, v1: seq<Record>,
                    b2: seq<Bar>, t2: seq<int>, l2: seq<string>, v2: seq<Record>, x0: int)
    requires Drawn(b1, t1, l1, v1, x0)
    requires Drawn(b2, t2, l2, v2, x0 + |v1|)
    ensures Drawn(b1 + b2, t1 + t2, l1 + l2, v1 + v2, x0)
  {
    forall j | |v1| <= j < |v1| + |v2|
      ensures (t1 + t2)[j] == x0 + j
      ensures (b1 + b2)[j] == Bar(x0 + j, (v1 + v2)[j].age, (v1 + v2)[j].color)
      ensures (l1 + l2)[j] == TickLabel((v1 + v2)[j].country, (v1 + v2)[j].gender)
    {
      var k := j - |v1|;
      assert (v1 + v2)[j] == v2[k];
    }
  }

  /**
   * The inner loop: one bar and one tick per row of a country's group, at
   * consecutive x positions from `x0`, each tick labelled with the country
   * and the row's gender.
   */
  method DrawCountry(country: string, group: seq<Record>, x0: int)
    returns (bars: seq<Bar>, ticks: seq<int>, labels: seq<string>)
    requires forall i :: 0 <= i < |group| ==> group[i].country == country
    ensures |bars| == |group| && |ticks| == |group| && |labels| == |group|
    ensures forall j :: 0 <= j < |group| ==>
              && ticks[j] == x0 + j
              && bars[j] == Bar(x0 + j, group[j].age, group[j].color)
              && labels[j] == TickLabel(country, group[j].gender)
  {
    bars, ticks, labels := [], [], [];
    var x := x0;
    for i := 0 to |group|
      invariant x == x0 + i
      invariant Drawn(bars, ticks, labels, group[..i], x0)
    {
      var row := group[i];
      DrawnAppend(bars, ticks, labels, group[..i],
                  [Bar(x, row.age, row.color)], [x], [TickLabel(country, row.gender)], [row], x0);
      bars := bars + [Bar(x, row.age, row.color)];
      labels := labels + [TickLabel(country, row.gender)];
      ticks := ticks + [x];
      x := x + 1;
      assert group[..i + 1] == group[..i] + [row];
    }
    assert group[..|group|] == group;
  }

  /**
   * The nested loop that draws the chart: for each distinct country in order
   * of appearance, for each of its rows, one bar at the next x position with
   * the row's age and colour, and one tick labelled with its country and gender.
   */
  method Layout(rows: seq<Record>) returns (chart: Chart)
    ensures |Visit(rows)| == |rows|
    ensures |chart.bars| == |rows| && |chart.ticks| == |rows| && |chart.labels| == |rows|
    ensures forall i :: 0 <= i < |rows| ==> chart.ticks[i] == i && chart.bars[i].x == i
    ensures forall i :: 0 <= i < |rows| ==>
              && chart.bars[i] == Bar(i, Visit(rows)[i].age, Visit(rows)[i].color)
              && chart.labels[i] == TickLabel(Visit(rows)[i].country, Visit(rows)[i].gender)
    ensures Grouped(Filtering.Countries(rows)) ==>
              forall i :: 0 <= i < |rows| ==>
                && chart.bars[i] == Bar(i, rows[i].age, rows[i].color)
                && chart.labels[i] == TickLabel(rows[i].country, rows[i].gender)
    ensures chart.legend == Legend
  {
    var countries := Filtering.Unique(Filtering.Countries(rows));
    var bars: seq<Bar> := [];
    var ticks: seq<int> := [];
    var labels: seq<string> := [];
    var x := 0;
    ghost var visited: seq<Record> := [];
    for k := 0 to |countries|
      invariant visited == VisitCountries(rows, countries[..k])
      invariant x == |visited|
      invariant Drawn(bars, ticks, labels, visited, 0)
    {
      var country := countries[k];
      var group := Group(rows, country);
      var groupBars, groupTicks, groupLabels := DrawCountry(country, group, x);
      assert Drawn(groupBars, groupTicks, groupLabels, group, x);
      DrawnAppend(bars, ticks, labels, visited, groupBars, groupTicks, groupLabels, group, 0);
      bars := bars + groupBars;
      ticks := ticks + groupTicks;
      labels := labels + groupLabels;
      x := x + |group|;
      assert countries[..k + 1] == countries[..k] + [country];
      visited := visited + group;
    }
    assert countries[..|countries|] == countries;
    VisitFacts(rows);
    chart := Chart(bars, ticks, labels, Legend);
  }
}
