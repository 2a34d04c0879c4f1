/**
 * One pass of the dashboard: load and clean the table, filter it by the
 * selections, sort it, and lay out the chart of the result.
 */
module Dashboard {
  import opened Wrappers
  import Text
  import opened Dataset
  import Filtering
  import Plot

  /** What one pass shows: the filtered table and the chart drawn from it. */
  datatype View = View(table: seq<Record>, chart: Plot.Chart)

  /** The view shows exactly the selected rows, ascending by country then gender. */
  ghost predicate ShowsSelection(v: View, rows: seq<Record>, countries: seq<string>, genders: seq<string>) {
    && (forall x :: multiset(v.table)[x] == if Filtering.Selected(x, countries, genders) then multiset(rows)[x] else 0)
    && (forall i, j :: 0 <= i < j < |v.table| ==>
          || Text.Less(v.table[i].country, v.table[j].country)
          || (v.table[i].country == v.table[j].country && Text.LessEq(v.table[i].gender, v.table[j].gender)))
  }

  /** Bar, tick and label `i` all come from row `i` of the table, and the legend is the fixed one. */
  predicate ChartMatchesTable(v: View) {
    && |v.chart.bars| == |v.table| && |v.chart.ticks| == |v.table| && |v.chart.labels| == |v.table|
    && (forall i :: 0 <= i < |v.table| ==>
          && v.chart.ticks[i] == i
          && v.chart.bars[i] == Plot.Bar(i, v.table[i].age, v.table[i].color)
          && v.chart.labels[i] == Plot.TickLabel(v.table[i].country, v.table[i].gender))
    && v.chart.legend == Plot.Legend
  }

  /** Filters and sorts the cleaned rows, then lays the chart out over the result. */
  method Draw(rows: seq<Record>, countries: seq<string>, genders: seq<string>) returns (v: View)
    ensures ShowsSelection(v, rows, countries, genders)
    ensures ChartMatchesTable(v)
  {
    var table := Filtering.FilteredView(rows, countries, genders);
    Plot.SortedIsGrouped(table);
    var chart := Plot.Layout(table);
    v := View(table, chart);
  }

  /**
   * A full pass. `input` is the parsed file, or `None` when the file is not
   * there, which stops the pass with an error and draws nothing.
   */
  method Render(input: Option<Frame>, countries: seq<string>, genders: seq<string>)
    returns (r: Result<View, Error>)
    requires input.Some? ==> Rectangular(input.value)
    ensures r == Failure(MissingInputFile) <==> input.None?
    ensures input.Some? && Clean(input.value).Failure? ==> r == Failure(Clean(input.value).error)
    ensures input.Some? && Clean(input.value).Success? ==> r.Success?
    ensures r.Success? <==> input.Some? && Cleanable(input.value)
    ensures r.Success? ==>
              && input.Some? && Clean(input.value).Success?
              && ShowsSelection(r.value, Clean(input.value).value, countries, genders)
              && ChartMatchesTable(r.value)
  {
    if input.None? {
      return Failure(MissingInputFile);
    }
    var cleaned := Clean(input.value);
    if cleaned.Failure? {
      return Failure(cleaned.error);
    }
    var v := Draw(cleaned.value, countries, genders);
    r := Success(v);
  }

  /** Under the default selections, a table of `M` and `F` rows loses no row. */
  lemma DefaultsShowEverything(rows: seq<Record>, v: View)
    requires ShowsSelection(v, rows, Filtering.DefaultCountries(rows), Filtering.DefaultGenders)
    requires forall i :: 0 <= i < |rows| ==> rows[i].gender in Filtering.DefaultGenders
    ensures multiset(v.table) == multiset(rows)
  {
  }


  /**
   * The first pass, before anyone touches the sidebar: every country and both
   * genders are selected, so a table whose gender codes are all `M` or `F`
   * is shown in full, sorted.
   */
  method RenderDefaults(input: Option<Frame>) returns (r: Result<View, Error>)
    requires input.Some? ==> Rectangular(input.value)
    ensures r == Failure(MissingInputFile) <==> input.None?
    ensures input.Some? && Clean(input.value).Failure? ==> r == Failure(Clean(input.value).error)
    ensures input.Some? && Clean(input.value).Success? ==> r.Success?
    ensures r.Success? <==> input.Some? && Cleanable(input.value)
    ensures r.Success? ==> input.Some? && Clean(input.value).Success? && ChartMatchesTable(r.value)
    ensures r.Success? ==>
              var rows := Clean(input.value).value;
              ShowsSelection(r.value, rows, Filtering.DefaultCountries(rows), Filtering.DefaultGenders)
    ensures r.Success? && (forall i :: 0 <= i < |Clean(input.value).value| ==>
                             Clean(input.value).value[i].gender in Filtering.DefaultGenders)
            ==> multiset(r.value.table) == multiset(Clean(input.value).value)
  {
    if input.None? {
      return Failure(MissingInputFile);
    }
    var cleaned := Clean(input.value);
    if cleaned.Failure? {
      return Failure(cleaned.error);
    }
    var rows := cleaned.value;
    var countries := Filtering.DefaultCountries(rows);
    var v := Draw(rows, countries, Filtering.DefaultGenders);
    if forall i :: 0 <= i < |rows| ==> rows[i].gender in Filtering.DefaultGenders {
      DefaultsShowEverything(rows, v);
    }
    r := Success(v);
  }
}
