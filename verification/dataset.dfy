/**
 * The table the dashboard loads, the cleaning pass over it, and the colour
 * each record derives from its gender code.
 */
module Dataset {
  import opened Wrappers
  import Text

  /** A parsed cell: the CSV reader yields text for string columns and integers for Age. */
  datatype Cell = Str(text: string) | Num(number: int)

  /** A parsed table: header names as they appear in the file, then the data rows. */
  datatype Frame = Frame(columns: seq<string>, rows: seq<seq<Cell>>)

  /** Every data row has one cell per header name, as the CSV reader guarantees. */
  predicate Rectangular(f: Frame) {
    forall i :: 0 <= i < |f.rows| ==> |f.rows[i]| == |f.columns|
  }

  /** The two bar colours the chart uses. */
  datatype Color = Blue | Red

  /** One cleaned row: country and gender with whitespace stripped, the age, and the derived colour. */
  datatype Record = Record(country: string, gender: string, age: int, color: Option<Color>)

  /** Why a pass stops before drawing anything. */
  datatype Error =
    | MissingInputFile
    | MissingColumn(name: string)
    | DuplicateColumn(name: string)
    | WrongCellType(column: string, row: nat)

  const CountryColumn := "Country"
  const GenderColumn := "Gender"
  const AgeColumn := "Age"

  /** The fixed colour map: `M` is drawn blue and `F` red. */
  const ColorMap: map<string, Color> := map["M" := Blue, "F" := Red]

  /** The colour a gender code maps to; any code outside the map has none. */
  function ColorOf(gender: string): (c: Option<Color>)
    ensures c == Some(Blue) <==> gender == "M"
    ensures c == Some(Red) <==> gender == "F"
    ensures c == None <==> gender != "M" && gender != "F"
  {
    if gender in ColorMap then Some(ColorMap[gender]) else None
  }

  /** A record as the cleaning pass leaves it. */
  predicate WellFormed(r: Record) {
    Text.Stripped(r.country) && Text.Stripped(r.gender) && r.color == ColorOf(r.gender)
  }

  /** Header names with surrounding whitespace stripped, position by position. */
  function CleanColumns(columns: seq<string>): (r: seq<string>)
    ensures |r| == |columns|
    ensures forall i :: 0 <= i < |r| ==> Text.Stripped(r[i])
    ensures forall i :: 0 <= i < |r| ==> r[i] == Text.Strip(columns[i])
  {
    seq(|columns|, i requires 0 <= i < |columns| => Text.Strip(columns[i]))
  }

  /** Cleaning the header twice changes nothing more than cleaning it once. */
  lemma CleanColumnsIdempotent(columns: seq<string>)
    ensures CleanColumns(CleanColumns(columns)) == CleanColumns(columns)
  {
  }


  /** The positions of `columns` that hold `name`, in increasing order. */
  function Positions(columns: seq<string>, name: string): (p: seq<nat>)
    ensures forall k :: 0 <= k < |p| ==> p[k] < |columns| && columns[p[k]] == name
    ensures forall i :: 0 <= i < |columns| && columns[i] == name ==> i in p
    ensures forall k, l :: 0 <= k < l < |p| ==> p[k] < p[l]
  {
    if |columns| == 0 then
      []
    else
      var init := columns[..|columns| - 1];
      var p := Positions(init, name);
      assert forall i :: 0 <= i < |init| ==> columns[i] == init[i];
      if columns[|columns| - 1] == name then p + [|columns| - 1] else p
  }

  /**
   * Selects the column `name` from a cleaned header. The lookup succeeds only
   * when exactly one column carries the name: none is a missing column, and
   * two or more select a whole sub-table that has no string operations.
   */
  function FindColumn(columns: seq<string>, name: string): (r: Result<nat, Error>)
    ensures r.Success? ==> r.value < |columns| && columns[r.value] == name
    ensures r.Success? ==> forall j :: 0 <= j < |columns| && j != r.value ==> columns[j] != name
    ensures r == Failure(MissingColumn(name)) <==> name !in columns
    ensures r == Failure(DuplicateColumn(name)) <==>
              exists i, j :: 0 <= i < j < |columns| && columns[i] == name && columns[j] == name
    ensures r.Success? || r == Failure(MissingColumn(name)) || r == Failure(DuplicateColumn(name))
  {
    var p := Positions(columns, name);
    if |p| == 0 then
      Failure(MissingColumn(name))
    else if |p| > 1 then
      assert columns[p[0]] == name && columns[p[1]] == name && p[0] < p[1];
      Failure(DuplicateColumn(name))
    else
      assert forall j :: 0 <= j < |columns| && columns[j] == name ==> j == p[0];
      Success(p[0])
  }

  /** Reads a Country or Gender cell: text, stripped of surrounding whitespace. */
  function StrippedText(c: Cell): (r: Option<string>)
    ensures r.Some? <==> c.Str?
    ensures r.Some? ==> Text.Stripped(r.value) && r.value == Text.Strip(c.text)
  {
    if c.Str? then Some(Text.Strip(c.text)) else None
  }

  /** Reads an Age cell. */
  function NumberOf(c: Cell): (r: Option<int>)
    ensures r.Some? <==> c.Num?
    ensures r.Some? ==> r.value == c.number
  {
    if c.Num? then Some(c.number) else None
  }

  /**
   * Reads column `col` of every row with `read`. The first row whose cell
   * `read` rejects stops the pass with that row's index.
   */
  function ReadColumn<T>(rows: seq<seq<Cell>>, col: nat, name: string, read: Cell -> Option<T>)
    : (r: Result<seq<T>, Error>)
    requires forall i :: 0 <= i < |rows| ==> col < |rows[i]|
    ensures r.Success? <==> forall i :: 0 <= i < |rows| ==> read(rows[i][col]).Some?
    ensures r.Success? ==> |r.value| == |rows|
    ensures r.Success? ==> forall i :: 0 <= i < |rows| ==> Some(r.value[i]) == read(rows[i][col])
    ensures r.Failure? ==>
              exists i :: && 0 <= i < |rows|
                          && r.error == WrongCellType(name, i)
                          && read(rows[i][col]).None?
                          && forall k :: 0 <= k < i ==> read(rows[k][col]).Some?
  {
    if |rows| == 0 then
      Success([])
    else
      var last := |rows| - 1;
      match ReadColumn(rows[..last], col, name, read)
      case Failure(e) => Failure(e)
      case Success(vs) =>
        match read(rows[last][col])
        case None => Failure(WrongCellType(name, last))
        case Some(v) => Success(vs + [v])
  }

  /** Reads a Country or Gender column: every cell must be text, which is stripped. */
  function ReadTextColumn(rows: seq<seq<Cell>>, col: nat, name: string): (r: Result<seq<string>, Error>)
    requires forall i :: 0 <= i < |rows| ==> col < |rows[i]|
    ensures r.Success? <==> forall i :: 0 <= i < |rows| ==> rows[i][col].Str?
    ensures r.Success? ==> |r.value| == |rows|
    ensures r.Success? ==> forall i :: 0 <= i < |rows| ==> r.value[i] == Text.Strip(rows[i][col].text)
    ensures r.Failure? ==> r.error.WrongCellType? && r.error.column == name
  {
    var r := ReadColumn(rows, col, name, StrippedText);
    assert r.Success? ==> forall i :: 0 <= i < |rows| ==> Some(r.value[i]) == StrippedText(rows[i][col]);
    r
  }

  /** Reads the Age column: every cell must be a number. */
  function ReadNumberColumn(rows: seq<seq<Cell>>, col: nat, name: string): (r: Result<seq<int>, Error>)
    requires forall i :: 0 <= i < |rows| ==> col < |rows[i]|
    ensures r.Success? <==> forall i :: 0 <= i < |rows| ==> rows[i][col].Num?
    ensures r.Success? ==> |r.value| == |rows|
    ensures r.Success? ==> forall i :: 0 <= i < |rows| ==> rows[i][col] == Num(r.value[i])
    ensures r.Failure? ==> r.error.WrongCellType? && r.error.column == name
  {
    var r := ReadColumn(rows, col, name, NumberOf);
    assert r.Success? ==> forall i :: 0 <= i < |rows| ==> Some(r.value[i]) == NumberOf(rows[i][col]);
    r
  }

  /** Joins the three read columns into records, attaching each row's colour. */
  function Assemble(countries: seq<string>, genders: seq<string>, ages: seq<int>): (r: seq<Record>)
    requires |countries| == |genders| == |ages|
    ensures |r| == |countries|
    ensures forall i :: 0 <= i < |r| ==>
              r[i] == Record(countries[i], genders[i], ages[i], ColorOf(genders[i]))
  {
    seq(|countries|, i requires 0 <= i < |countries| =>
      Record(countries[i], genders[i], ages[i], ColorOf(genders[i])))
  }

  /**
   * The cleaning pass can complete: Country, Gender and Age each name exactly
   * one cleaned header, and every row holds text under Country and Gender and
   * a number under Age.
   */
  ghost predicate Cleanable(f: Frame)
    requires Rectangular(f)
  {
    var columns := CleanColumns(f.columns);
    && FindColumn(columns, CountryColumn).Success?
    && FindColumn(columns, GenderColumn).Success?
    && FindColumn(columns, AgeColumn).Success?
    && var c := FindColumn(columns, CountryColumn).value;
       var g := FindColumn(columns, GenderColumn).value;
       var a := FindColumn(columns, AgeColumn).value;
       forall i :: 0 <= i < |f.rows| ==> f.rows[i][c].Str? && f.rows[i][g].Str? && f.rows[i][a].Num?
  }

  /**
   * The cleaning pass: strip the header names, select Country and strip its
   * values, select Gender and strip its values, select Age, and attach the
   * colour of each row's gender code.
   */
  function Clean(f: Frame): (r: Result<seq<Record>, Error>)
    requires Rectangular(f)
    ensures r.Failure? ==> r.error != MissingInputFile
    ensures r.Success? ==> |r.value| == |f.rows|
    ensures r.Success? ==> forall i :: 0 <= i < |r.value| ==> WellFormed(r.value[i])
    ensures r.Success? <==> Cleanable(f)
    ensures CountryColumn !in CleanColumns(f.columns) ==> r == Failure(MissingColumn(CountryColumn))
    ensures GenderColumn !in CleanColumns(f.columns) ==> r.Failure?
    ensures AgeColumn !in CleanColumns(f.columns) ==> r.Failure?
    ensures r.Success? ==>
              var columns := CleanColumns(f.columns);
              var c := FindColumn(columns, CountryColumn).value;
              var g := FindColumn(columns, GenderColumn).value;
              var a := FindColumn(columns, AgeColumn).value;
              forall i :: 0 <= i < |f.rows| ==>
                && f.rows[i][c].Str?
                && r.value[i].country == Text.Strip(f.rows[i][c].text)
                && f.rows[i][g].Str?
                && r.value[i].gender == Text.Strip(f.rows[i][g].text)
                && f.rows[i][a] == Num(r.value[i].age)
  {
    CleanSucceedsWhenCleanable(f);
    CleanSucceedsOnlyWhenCleanable(f);
    CleanFailsWithoutColumn(f);
    CleanReadsSelectedCells(f);
    CleanSteps(f)
  }

  /** The steps of the cleaning pass, in the order the script performs them. */
  function CleanSteps(f: Frame): (r: Result<seq<Record>, Error>)
    requires Rectangular(f)
    ensures r.Failure? ==> r.error != MissingInputFile
    ensures r.Success? ==>
              && FindColumn(CleanColumns(f.columns), CountryColumn).Success?
              && FindColumn(CleanColumns(f.columns), GenderColumn).Success?
              && FindColumn(CleanColumns(f.columns), AgeColumn).Success?
  {
    var columns := CleanColumns(f.columns);
    var c :- FindColumn(columns, CountryColumn);
    var countries :- ReadTextColumn(f.rows, c, CountryColumn);
    var g :- FindColumn(columns, GenderColumn);
    var genders :- ReadTextColumn(f.rows, g, GenderColumn);
    var a :- FindColumn(columns, AgeColumn);
    var ages :- ReadNumberColumn(f.rows, a, AgeColumn);
    Success(Assemble(countries, genders, ages))
  }

  /** A frame that meets every demand of the cleaning pass cleans. */
  lemma CleanSucceedsWhenCleanable(f: Frame)
    requires Rectangular(f)
    ensures Cleanable(f) ==> CleanSteps(f).Success?
  {
    if Cleanable(f) {
      var columns := CleanColumns(f.columns);
      var c := FindColumn(columns, CountryColumn).value;
      var g := FindColumn(columns, GenderColumn).value;
      var a := FindColumn(columns, AgeColumn).value;
      assert ReadTextColumn(f.rows, c, CountryColumn).Success?;
      assert ReadTextColumn(f.rows, g, GenderColumn).Success?;
      assert ReadNumberColumn(f.rows, a, AgeColumn).Success?;
    }
  }

  /** A frame that cleans meets every demand of the cleaning pass. */
  lemma CleanSucceedsOnlyWhenCleanable(f: Frame)
    requires Rectangular(f)
    ensures CleanSteps(f).Success? ==> Cleanable(f)
  {
    if CleanSteps(f).Success? {
      var columns := CleanColumns(f.columns);
      var c := FindColumn(columns, CountryColumn).value;
      var g := FindColumn(columns, GenderColumn).value;
      var a := FindColumn(columns, AgeColumn).value;
      assert ReadTextColumn(f.rows, c, CountryColumn).Success?;
      assert ReadTextColumn(f.rows, g, GenderColumn).Success?;
      assert ReadNumberColumn(f.rows, a, AgeColumn).Success?;
    }
  }

  /** A header that lacks one of the three columns does not clean. */
  lemma CleanFailsWithoutColumn(f: Frame)
    requires Rectangular(f)
    ensures CountryColumn !in CleanColumns(f.columns) ==> CleanSteps(f) == Failure(MissingColumn(CountryColumn))
    ensures GenderColumn !in CleanColumns(f.columns) ==> CleanSteps(f).Failure?
    ensures AgeColumn !in CleanColumns(f.columns) ==> CleanSteps(f).Failure?
  {
  }

  /** A cleaned record is built from the cells of its own row under the selected columns. */
  lemma CleanReadsSelectedCells(f: Frame)
    requires Rectangular(f)
    ensures var r := CleanSteps(f);
            r.Success? ==>
              && |r.value| == |f.rows|
              && (forall i :: 0 <= i < |r.value| ==> WellFormed(r.value[i]))
              && var columns := CleanColumns(f.columns);
                 var c := FindColumn(columns, CountryColumn).value;
                 var g := FindColumn(columns, GenderColumn).value;
                 var a := FindColumn(columns, AgeColumn).value;
                 forall i :: 0 <= i < |f.rows| ==>
                   && f.rows[i][c].Str?
                   && r.value[i].country == Text.Strip(f.rows[i][c].text)
                   && f.rows[i][g].Str?
                   && r.value[i].gender == Text.Strip(f.rows[i][g].text)
                   && f.rows[i][a] == Num(r.value[i].age)
  {
    var columns := CleanColumns(f.columns);
    if CleanSteps(f).Success? {
      var c := FindColumn(columns, CountryColumn).value;
      var g := FindColumn(columns, GenderColumn).value;
      var a := FindColumn(columns, AgeColumn).value;
      var countries := ReadTextColumn(f.rows, c, CountryColumn).value;
      var genders := ReadTextColumn(f.rows, g, GenderColumn).value;
      var ages := ReadNumberColumn(f.rows, a, AgeColumn).value;
      var r := CleanSteps(f).value;
      assert r == Assemble(countries, genders, ages);
      forall i | 0 <= i < |f.rows|
        ensures f.rows[i][c].Str? && r[i].country == Text.Strip(f.rows[i][c].text)
        ensures f.rows[i][g].Str? && r[i].gender == Text.Strip(f.rows[i][g].text)
        ensures f.rows[i][a] == Num(r[i].age)
        ensures WellFormed(r[i])
      {
        assert r[i] == Record(countries[i], genders[i], ages[i], ColorOf(genders[i]));
      }
    }
  }
}
