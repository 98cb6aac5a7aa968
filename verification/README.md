# Consolidado de Unidades — "Desde" prices and UF/M2 chart

A Dafny model of the data path of the `desdedpto.py` dashboard. The dashboard
reads a sheet of apartment listings (developer, project, unit, district
(COMUNA), typology, area, UF/M2 and price) and renders one page for a selected
COMUNA and TIPOLOGÍA. The model covers the data steps of that page:

- **Filter** (`Listings.Filter`): keep the rows that match both selections.
- **"Desde" table** (`Listings.Desde`): per project, the unit with the lowest
  price. This is the `groupby("PROYECTO")["Real"].idxmin()` step, with the
  empty fallback.
- **Project labels** (`Labels`): `<br>` tags in project names become spaces,
  then `wrap_label` packs the words greedily into lines joined by `<br>`. A
  line of two or more words is at most 9 characters; a longer word stays
  whole on a line of its own.
- **Table view** (`Dashboard.TableViewOf`): the table sorted by starting
  price, the rows showing the lowest price highlighted, and a placeholder
  message when nothing matches.
- **Chart** (`Chart.BuildChart`):
  - rows sorted by UF/M2
  - one bar trace per developer, in order of first appearance
  - trace colours taken in turn from a seven-colour palette
  - the cheapest bar recoloured and its label marked
  - a height of 700 plus 25 per row beyond twelve
- **One render** (`Dashboard.Render`): all of the above, end to end.

Modules:

- `Wrappers`: `Option`.
- `Text`: the following Python string operations.
  - `str.isspace` whitespace.
  - `split()` / `strip()` / `join`.
- `Labels`: the pattern `<br\s*/?>` and its rewrite, and `wrap_label`. It has
  two forms:
  - a fold (`Pack`);
  - the loop as written (`WrapLabelLoop`).
- `Order`:
  - Python's string order (`LexLess`)
  - sorting by a numeric key
  - `idxmin` on a column
- `Listings`: the listing rows, the filter and the "Desde" aggregation.
- `Chart`: the bar chart.
- `Dashboard`: the table view and one render.

Modelling choices:

- **Numbers:** prices, areas and UF/M2 are `real`, so they are exact.
- **Tie order of the sorts:** `sort_values` is pandas' default quicksort,
  which is not stable. The sorts are therefore stated as "sorted and a
  permutation of the input". `Order.SortedPermutationsAgree` shows that this
  fixes the sort-key column completely. Only the order of rows with equal keys
  is left open.
- **Order of the "Desde" table:** `groupby` sorts its keys, so the table comes
  out in ascending project-name order. That order is Python's code-point order
  on strings (`Order.LexLess`), and it is part of the contract of
  `Listings.Desde`.
- **Row chosen per project:** `idxmin` returns the first row that holds the
  minimum, so the row for each project is the first cheapest one.
- **The cheapest bar:** after the chart rows are sorted and re-indexed, the
  first minimum of UF/M2 is always position 0 (`Order.SortedArgMin`). The
  highlighted bar is therefore the first category on the axis.

## Model

| member | source | states |
|---|---|---|
| Text.Split | desdedpto.py:100 | `split()` returns words that are non-empty and whitespace-free; there are none exactly when the text is all whitespace |
| Text.SplitKeepsCharacters | desdedpto.py:100 | the words of `split()`, laid end to end, are exactly the non-whitespace characters of the text, in order |
| Text.Strip | desdedpto.py:98 | `strip()` is empty exactly when the text is all whitespace, and the result neither starts nor ends with whitespace |
| Text.SplitJoinSpace | desdedpto.py:100-114 | splitting lines joined by single spaces gives the words of the lines, in order |
| Labels.TagLenMatches | desdedpto.py:95 | the matcher for `<br\s*/?>` at the start of a string returns a length that is a whole match, and it returns exactly n whenever the first n characters are a match (so a match is unique) |
| Labels.NormalizeBreaks | desdedpto.py:95 | replacing every `<br>` / `<br/>` / `<br  />` tag by one space never lengthens the text, and text without `<` is unchanged |
| Labels.NormalizeMatch | desdedpto.py:95 | any whole match of `<br\s*/?>` at the front (`<br>`, `<br/>`, `<br />`, ...) is replaced by one space and the rest is rewritten on |
| Labels.NormalizeJoin | desdedpto.py:95 | rewriting the tags of lines joined by `<br>` (lines without `<`) gives the lines joined by spaces |
| Labels.WrapLabel | desdedpto.py:97-99 | blank (all-whitespace) input is returned unchanged |
| Labels.WrapLabelLoop | desdedpto.py:97-114 | the word loop as written (current line, append when the word does not fit, flush the last line) computes the same label as the fold `Pack` |
| Labels.PackKeepsWords | desdedpto.py:100-113 | the words of the packed lines, in order, are exactly the input words: none dropped, split, merged or reordered |
| Labels.PackLinesNonBlank | desdedpto.py:104-113 | no packed line is empty or blank |
| Labels.PackLinesFit | desdedpto.py:107-108 | every line holding two or more words is at most `max_chars` long |
| Labels.PackGreedy | desdedpto.py:104-111 | a new line starts only when its first word would not fit after the previous line with a space |
| Labels.PackAvoids | desdedpto.py:103-113 | packing introduces no character other than the separating space |
| Labels.WrapLinesProperties | desdedpto.py:97-114 | for any text, the lines keep its words in order, are non-blank, are greedy, and a line over the limit is a single word |
| Labels.WrapLabelRoundTrip | desdedpto.py:95-116 | for names without `<`, turning the `<br>` of the wrapped label back into spaces and splitting gives the words of the name |
| Listings.Filter | desdedpto.py:78 | a row is kept exactly when it is in the input and matches both COMUNA and TIPOLOGÍA |
| Listings.FilterConcat | desdedpto.py:78 | filtering distributes over concatenation, so the kept rows are in input order |
| Listings.FilterMultiplicity | desdedpto.py:78 | a matching row is kept as many times as it occurs, and a non-matching row never |
| Listings.FirstMinIndex | desdedpto.py:85 | for a present project, the index of its first row with the lowest price |
| Listings.FirstMinUnique | desdedpto.py:85 | a project has one first-minimum row |
| Listings.InsertKey | desdedpto.py:85 | inserting a project key keeps the keys strictly increasing and adds exactly that key |
| Listings.GroupKeys | desdedpto.py:85 | the group keys are the distinct projects, strictly increasing in string order |
| Listings.IdxMin | desdedpto.py:85 | one index per project, in project order, each the first row with that project's minimum price, and every project is covered |
| Listings.Desde | desdedpto.py:83-90 | empty input gives the empty table; each row is a renamed copy of its project's first cheapest listing; rows ascend by project; every filtered project has a row |
| Listings.DesdeOnePerProject | desdedpto.py:85 | the table has exactly as many rows as there are distinct projects |
| Listings.PickedIsMinimum | desdedpto.py:85-87 | a row picked by `idxmin` has a "Desde (UF)" at most the price of every listing of its project |
| Order.LexLessTotal | desdedpto.py:85 | the string order is total on distinct strings |
| Order.LexLessTransitive | desdedpto.py:85 | the string order is transitive |
| Order.LexLessIrreflexive | desdedpto.py:85 | no string is below itself |
| Order.InsertBy | desdedpto.py:123 | inserting into a sorted sequence keeps it sorted and adds exactly that element |
| Order.SortBy | desdedpto.py:123 | `sort_values` returns a permutation of its input, sorted ascending by the key |
| Order.SortedPermutationsAgree | desdedpto.py:123 | any two sorted permutations of the same rows agree on the key at every position |
| Order.ArgMin | desdedpto.py:161 | `idxmin` is the first position holding the minimum: nothing is smaller, and every earlier value is larger |
| Chart.TraceColor | desdedpto.py:163-176 | a developer's colour is a palette entry, never the highlight colour; the first seven developers get the seven palette colours in order |
| Chart.TraceColorCycles | desdedpto.py:176 | colours wrap around: developer k + 7 gets the colour of developer k |
| Chart.Height | desdedpto.py:200-202 | the height is at least 700, equals 700 up to twelve rows, and grows by 25 with each row beyond |
| Chart.FirstIndex | desdedpto.py:169 | the first position of a value in a column |
| Chart.Unique | desdedpto.py:169 | `unique()`: distinct developers, exactly those in the column, in order of first appearance |
| Chart.BarsFrom | desdedpto.py:172-179 | a developer's bars are its own rows in strictly increasing chart position (so no row twice), each coloured and marked by the rule |
| Chart.BarsFromComplete | desdedpto.py:172-173 | every row of a developer gets a bar in that developer's trace |
| Chart.Traces | desdedpto.py:169-198 | one trace per developer: distinct, in first-appearance order, covering every row |
| Chart.BarsFromMinCount | desdedpto.py:176-179 | a trace holds one highlight-coloured bar if it owns the minimum row, else none |
| Chart.ExactlyOneMinBar | desdedpto.py:176-179 | across all traces exactly one bar has the highlight colour |
| Chart.EveryRowOneBar | desdedpto.py:171-174 | each row has a bar in its developer's trace and in no other |
| Chart.BarColours | desdedpto.py:176-186 | a bar is highlight-coloured and marked exactly at the minimum index, else it has its trace's palette colour |
| Chart.BuildChart | desdedpto.py:159-202 | no chart for an empty table; otherwise rows sorted by UF/M2 and a permutation of the table, one category per row in that order, height `Height` of the row count (at least 700) |
| Chart.ChartHighlightsCheapest | desdedpto.py:159-179 | in a built chart exactly one bar is highlighted; it is at position 0, and that row has the lowest UF/M2 |
| Dashboard.HighlightRows | desdedpto.py:134-142 | a row is highlighted exactly when its displayed price is the lowest displayed price, and some row always is |
| Dashboard.HighlightedPrefix | desdedpto.py:123-142 | if the table is sorted by price and display rounding keeps order, the first row is highlighted and the highlighted rows are a prefix |
| Dashboard.TableViewOf | desdedpto.py:121-154 | placeholder message exactly when the table is empty; otherwise the rows are a permutation sorted by "Desde (UF)", with the minimum highlight on each row |
| Dashboard.NothingSelected | desdedpto.py:78-83 | the filter keeps nothing exactly when no row matches both selections |
| Dashboard.DesdeEmpty | desdedpto.py:83-90 | the "Desde" table is empty exactly when the filtered rows are |
| Dashboard.Labelled | desdedpto.py:95-116 | a row keeps its data, and for names whose rewritten form (PROYECTO_RAW) has no `<`, its wrapped label (PROYECTO_RAW wrapped at 9) carries exactly the words of PROYECTO_RAW, in order |
| Dashboard.Render | desdedpto.py:78-202 | placeholder exactly when there is no chart, and exactly when no row matches; otherwise the table rows are the "Desde" rows of the filtered data, sorted by price, one per matching project; the chart rows are those rows, labelled |

## Left out

- Loading the sheet (`pd.read_excel`, line 53) and the Streamlit page: page config, CSS, headers, logo, columns, `st.dataframe`, `st.plotly_chart`. These are I/O and UI. The model takes the rows as a sequence.
- The selectbox option lists (lines 71-73): the sorted distinct COMUNA / TIPOLOGÍA values. The selections are parameters of `Dashboard.Render`.
- Missing values (NaN) in any column. Every field of a listing is present.
- `astype(str)` on PROYECTO (line 95) and the non-string branch of `wrap_label` (line 98). Project names are strings.
- Floating point. Numbers are exact reals, so ties and minima are exact.
- Two-decimal formatting (line 130) and the styles in general: the style strings (`color: #FFD700`, centring, the `<span>` around the marked bar's label) and the Plotly layout (lines 204-234).
  - A row's highlight and a bar's `marked` flag are modelled as booleans.
- Dashboard.HighlightRows: takes the "format with two decimals, then parse" step of lines 130 and 135 as a parameter `shown`. `Dashboard.HighlightedPrefix` assumes only that `shown` keeps order.
- Order.SortBy: states sortedness and permutation only, not the tie order of pandas' unstable quicksort.
- Chart.BuildChart: same as Order.SortBy. `Order.SortedPermutationsAgree` pins down the UF/M2 column; which of two equally priced rows comes first is not modelled.
