# Ages by country and gender: a Dafny model of the dashboard pipeline

The dashboard script loads a table of people (`Country`, `Gender`, `Age`),
cleans it, lets the user pick countries and genders, and draws one bar per
selected person. The bars are grouped by country and coloured by gender. This
project models everything between the parsed file and the figure as pure
functions over sequences, and proves what each step promises:

- **Cleaning** (`Dataset.Clean`). Header names are stripped of surrounding
  whitespace, and so are the Country and Gender values. Stripping follows
  Python's `str.strip()` and its `str.isspace` character set. The Country,
  Gender and Age columns are then selected by their cleaned names. Each
  record gets the colour of its gender code.
- **Colour map** (`Dataset.ColorOf`). `M` maps to blue and `F` to red. Every
  other code has no colour (`None`).
- **Selections** (`Filtering.DefaultCountries`, `Filtering.DefaultGenders`).
  The country options are the sorted distinct countries, and all of them are
  selected by default. The gender options are `M` and `F`, both selected by
  default.
- **Filter and sort** (`Filtering.Filter`, `Filtering.SortByCountryGender`).
  The filter keeps exactly the rows whose country and gender are both
  selected. The sort orders them by country, then by gender, using Python's
  code-point string order.
- **Layout** (`Plot.Layout`). This is the nested loop over the distinct
  countries and their rows. Each row gets the next x position (0, 1, 2, …),
  a bar of its age and colour, and a tick label `Country\nGender`. The
  two-entry legend never changes.
- **One pass** (`Dashboard.Render`, `Dashboard.RenderDefaults`). A missing
  file stops the pass with an error. Otherwise the pass is clean, filter,
  sort, lay out.

Modules: `Wrappers` (Option/Result), `Text` (strip and string order),
`Sorting` (insertion sort by a two-string key), `Dataset`, `Filtering`,
`Plot`, `Dashboard`.

Three behaviours of the script the model keeps:
- Gender codes are not restricted to `M`/`F`. Any other code is kept and gets
  no colour.
- The default gender selection is the fixed list `["M", "F"]`, not the
  genders present in the data.
- Nothing is promised about the order of rows with equal (country, gender):
  the script asks for no stable sort.

## Model

| member | source | states |
|---|---|---|
| Text.Strip | projec2.py:19-21 | the stripped string is a slice of the input with no whitespace at either end, only whitespace was cut off, and an already-stripped string comes back unchanged |
| Text.StripIdempotent | projec2.py:19-21 | stripping a value that was already stripped changes nothing |
| Text.StripRemovesSurroundingSpace | projec2.py:19-21 | any whitespace put around a stripped string is removed exactly, recovering that string |
| Text.LessTransitive | projec2.py:44 | the string order used by the sort is transitive |
| Text.LessTotal | projec2.py:44 | any two different strings are ordered one way round |
| Text.LessAsymmetric | projec2.py:44 | no two strings are each smaller than the other |
| Text.LessIrreflexive | projec2.py:44 | no string is smaller than itself |
| Sorting.KeyLeTransitive | projec2.py:44 | ordering by (country, gender) is transitive |
| Sorting.KeyLeTotal | projec2.py:44 | any two (country, gender) keys are comparable |
| Sorting.KeyLeAntisymmetric | projec2.py:44 | keys ordered both ways are equal |
| Sorting.Insert | projec2.py:44 | inserting into a sorted list keeps it sorted and adds exactly that one element |
| Sorting.SortBy | projec2.py:44 | the result is sorted by the key and is a permutation of the input |
| Sorting.SortReversedTriple | projec2.py:44 | three elements in strictly descending key order come out reversed |
| Dataset.ColorOf | projec2.py:24-25 | the colour is blue exactly for `M`, red exactly for `F`, and absent for every other code |
| Dataset.CleanColumns | projec2.py:19 | the cleaned header has the same length, every name is stripped, and name i comes from name i |
| Dataset.CleanColumnsIdempotent | projec2.py:19 | cleaning a cleaned header changes nothing |
| Dataset.FindColumn | projec2.py:20-21 | selecting a column succeeds with its position exactly when one header has the name; none gives a missing-column error, two or more a duplicate-column error |
| Dataset.StrippedText | projec2.py:20-21 | a text cell reads as its stripped text; a non-text cell has no text value |
| Dataset.ReadColumn | projec2.py:20-21 | the column reads in full and in order exactly when every cell is readable; otherwise the error names the first unreadable row |
| Dataset.ReadTextColumn | projec2.py:20-21 | a Country or Gender column reads exactly when every cell is text, giving each row's stripped text in row order; a failure names the column |
| Dataset.ReadNumberColumn | projec2.py:58 | the Age column reads exactly when every cell is a number, giving each row's number in row order; a failure names the column |
| Dataset.Assemble | projec2.py:25 | record i joins country i, gender i and age i with the colour of gender i |
| Dataset.Clean | projec2.py:19-25 | cleaning succeeds exactly when Country, Gender and Age each name one cleaned header and every row has text under Country and Gender and a number under Age; then there is one record per row, each well formed (stripped country and gender, colour from the gender) and taken from the selected cells; a header without Country fails with that missing column, one without Gender or Age fails too |
| Filtering.Unique | projec2.py:55 | the distinct values are exactly the values of the input, each listed once |
| Filtering.UniqueSnoc | projec2.py:55 | distinct values are listed in order of first appearance: appending a value adds it at the end only when it is new |
| Filtering.DefaultCountries | projec2.py:29-33 | the default countries are exactly the countries in the table, each once, strictly ascending |
| Filtering.Filter | projec2.py:41 | a row is kept exactly when its country and gender are both selected, fields unchanged; an empty selection of either kind gives an empty result |
| Filtering.FilterCounts | projec2.py:41 | every selected row is kept as often as it occurs in the table, and every other row not at all |
| Filtering.FilterAppend | projec2.py:41 | filtering a concatenation concatenates the filtered parts, so the row order is kept |
| Filtering.FilterKeepsAllSelected | projec2.py:41 | when every row is selected the filter returns the table unchanged |
| Filtering.DefaultSelectionKeepsAll | projec2.py:29-41 | with the default selections, a table whose genders are all `M` or `F` passes the filter unchanged |
| Filtering.SortByCountryGender | projec2.py:44 | the sorted rows are a permutation of the input, ascending by country and by gender within a country |
| Filtering.FilteredView | projec2.py:41-44 | the view holds exactly the selected rows with their multiplicities, sorted by country then gender |
| Filtering.ThreeRowExample | projec2.py:41-44 | rows (US, M, 30), (US, F, 25), (FR, M, 40) with everything selected become FR/M, US/F, US/M |
| Plot.TickLabel | projec2.py:59 | the label is the country, one line break, then the gender, and nothing else |
| Plot.TickLabelInjective | projec2.py:59 | for countries without a line break, equal labels mean equal country and equal gender |
| Plot.Group | projec2.py:56 | every row of a country's group has that country |
| Plot.GroupContents | projec2.py:56 | a row is in a country's group exactly when it is a row of that country |
| Plot.Visit | projec2.py:55-57 | walking the distinct countries and then each country's rows visits every row exactly once, for any row order |
| Plot.VisitGroupedInOrder | projec2.py:55-57 | when each country's rows are contiguous, the walk visits the rows in their given order |
| Plot.SortedIsGrouped | projec2.py:44-57 | rows sorted by country have each country's rows contiguous |
| Plot.DrawCountry | projec2.py:57-61 | one bar, tick and label per row of a country's group, at consecutive x positions from the running position, with the row's age and colour and the label country, line break, gender |
| Plot.Layout | projec2.py:49-74 | there are as many bars, ticks and labels as rows; tick and bar i sit at x = i; bar i has the age and colour of the i-th visited row and its label is country, line break, gender; for rows grouped by country the i-th visited row is row i; the legend is the fixed blue Male, red Female pair |
| Dashboard.Draw | projec2.py:41-74 | the shown table is exactly the selected rows sorted by country then gender, and bar, tick and label i belong to table row i under the fixed legend, even for an empty selection |
| Dashboard.Render | projec2.py:12-74 | a missing file, and only a missing file, gives the missing-file error; a cleaning error stops the pass with that error; the pass succeeds exactly when the file is there and cleans, and then the view shows the selection of the cleaned table with a matching chart |
| Dashboard.DefaultsShowEverything | projec2.py:29-41 | under the default selections a table of `M`/`F` rows loses no row |
| Dashboard.RenderDefaults | projec2.py:29-44 | on the first pass, a missing file and only that gives the missing-file error, a cleaning error stops the pass, a file that cleans is always shown, the view holds exactly the rows of the default countries and genders sorted by country then gender, and a table whose genders are all `M` or `F` is shown in full, as a permutation of the cleaned rows, with a matching chart |

## Left out

- Reading `country_data.csv` and CSV parsing are not modelled (projec2.py:12-16). The parsed file is an input; `None` stands for a missing file. The error message and `st.stop` are not modelled.
- Streamlit calls are not modelled (page config, title, sidebar header, the two multiselect widgets, `st.pyplot`, the expander and `st.dataframe`). They are user-interface plumbing. The widgets' selections are plain input lists. The table view's `reset_index` only renumbers rows, so the view is the sorted sequence itself.
- Figure rendering is not modelled: figure size, bar width 0.4, title, y-axis label, label rotation and alignment, and the legend title. They carry no logic beyond the sequences already modelled.
- Floating point is not modelled. x positions and ages are integers, since the spacing is exactly 1.0 and the layout only counts.
- The multiselect widgets only offer their options, so a selection always lies within them. The model accepts any selection lists, which includes those.
- Dataset.Clean: resolves the Age column while loading. The script first reads `row['Age']` when drawing a bar (projec2.py:58), so a file without an Age column shows an empty chart there when nothing is selected.
- Dataset.Clean: rejects an Age cell that is not a number (`WrongCellType`) and a header with two columns that strip to `Age` (`DuplicateColumn`). The script meets the age only when drawing a bar (projec2.py:58), and a text or blank (NaN) age is not rejected at load.
- Dataset.Clean: treats a Country or Gender cell that is not text as an error. In pandas, a missing or numeric cell becomes NaN or raises, depending on the column's type.
- Dataset.FindColumn: takes the header as parsed. The CSV reader's renaming of duplicate raw names (`X.1`) is not modelled.
- Filtering.SortByCountryGender: promises sortedness and permutation only. It does not promise the pandas order among rows with equal country and gender; the model's insertion sort is stable, but that is not claimed.
