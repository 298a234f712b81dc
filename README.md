# SpaceX launch dashboard — the data-transformation layer

The dashboard loads a table of SpaceX launch records, drops rows that lack a
payload mass, a launch site or an outcome class, and computes three values at
start-up: the payload bounds for the range slider, the distinct launch sites,
and the site drop-down options. Two callbacks then work on the cleaned table:

- the pie callback takes either the whole table (selector `"ALL"`) or the rows
  of one site, and groups them by outcome class;
- the scatter callback keeps the rows whose payload lies in the closed slider
  range and then, unless `"ALL"` is selected, the rows of the selected site.

This project models that layer and proves what each step selects.

- `wrappers.dfy`: `Option`. A missing CSV cell (pandas NaN) is `None`.
- `selection.dfy` (module `Selection`): the pandas operations the script uses,
  stated on sequences.
  - `Filter` is boolean-mask row selection `df[mask]`. It comes with
    `Positions`, the indices where the mask is true.
  - `IsOrderedSelection(r, s, p)` says that `r` holds exactly the elements of `s`
    that satisfy `p`, each once and in their order in `s`.
  - `Unique` is `Series.unique()`, in first-seen order. `Count` counts one value.
- `launch_data.dfy` (module `LaunchData`): the raw `Row` and the cleaned
  `LaunchRecord`.
  - `LaunchFrame` is the module-level frame. Its method `DropNa` replaces the
    rows in place, as `dropna(..., inplace=True)` does.
  - `Load` builds the frame and cleans it.
  - The start-up values are `MinPayload`, `MaxPayload`, `LaunchSites` and
    `DropdownOptions`.
- `charts.dfy` (module `Charts`): `PieRecords` and `PieChart` (one `Slice` per
  outcome class present) model `get_pie_chart`. `ScatterRecords` models
  `get_scatter_chart`.

The site selector stays a string compared with the literal `"ALL"`, as in the
source. So a launch site literally named `"ALL"` cannot be chosen on its own.
`DropdownUnambiguous` proves that the option values repeat exactly when such a
site exists.

Inputs are taken as the code accepts them:

- The selector is any string compared with `"ALL"`. A string that is neither
  `"ALL"` nor a site of the table yields an empty selection (`PieUnknownSite`,
  `ScatterUnknownSite`).
- The payload range is any pair of reals. `low > high` yields nothing
  (`ScatterEmptyRange`).
- The booster column is kept as an optional cell. `dropna` does not look at it,
  so a row with a missing booster stays in the table.
- pandas returns NaN for `max()`/`min()` of an empty column. `MaxPayload` and
  `MinPayload` return `None` in that case, so neither needs a precondition on a
  non-empty table.

## Model

| member | source | states |
|---|---|---|
| `LaunchData.Clean` | spacex-dash-app.py:21 | the cleaned table is never longer than the input; specified by `CleanSelectsCompleteRows` and `CleanSoundAndComplete` |
| `LaunchData.DropMissing` | spacex-dash-app.py:21 | every row left after dropping has a payload, a launch site and a class |
| `LaunchData.CleanSelectsCompleteRows` | spacex-dash-app.py:21 | cleaning keeps exactly the rows with all three required cells, each once and in the original order, and turns the k-th of them into the k-th record |
| `LaunchData.CleanSoundAndComplete` | spacex-dash-app.py:21 | every complete input row appears as a record; every record comes from a complete input row |
| `LaunchData.LaunchFrame.DropNa` | spacex-dash-app.py:21 | the frame's rows are replaced in place by its complete rows, and afterwards every row is complete |
| `LaunchData.Load` | spacex-dash-app.py:14-21 | the loaded table is the cleaned CSV rows; no complete row is lost |
| `LaunchData.MaxPayload` | spacex-dash-app.py:25 | NaN (`None`) exactly for an empty table; otherwise no payload is above it and some record has it |
| `LaunchData.MinPayload` | spacex-dash-app.py:26 | NaN (`None`) exactly for an empty table; otherwise no payload is below it and some record has it |
| `LaunchData.PayloadBoundsOrdered` | spacex-dash-app.py:25-26 | the two bounds are present together, and the minimum is at most the maximum |
| `Selection.Unique` | spacex-dash-app.py:33 | `unique()` yields each value of the column, only values of the column, and no value twice |
| `Selection.UniqueFirstSeenOrder` | spacex-dash-app.py:33 | `unique()` orders the values by their first occurrence |
| `LaunchData.LaunchSites` | spacex-dash-app.py:33 | `launch_sites` has no duplicates and is no longer than the table; specified fully by `LaunchSitesSpec` |
| `LaunchData.LaunchSitesSpec` | spacex-dash-app.py:33 | `launch_sites` has no duplicates, holds exactly the sites of the table, and is in first-occurrence order |
| `LaunchData.DropdownOptions` | spacex-dash-app.py:34-35 | the options are the "All Sites"/`ALL` entry followed by one entry per site, in order (length 1 + number of sites) |
| `LaunchData.DropdownOffersEverySite` | spacex-dash-app.py:33-35 | every option value is `ALL` or a site of the table, and every site of the table is offered |
| `LaunchData.DropdownValuesDistinct` | spacex-dash-app.py:34-35 | over a duplicate-free site list, the option values are distinct if and only if no site is `"ALL"` |
| `LaunchData.DropdownUnambiguous` | spacex-dash-app.py:33-35 | for the table's own sites, the option values are distinct if and only if no launch site is named `"ALL"` |
| `Selection.FilterIsOrderedSelection` | spacex-dash-app.py:92 | a boolean-mask selection holds exactly the rows where the mask is true, each once and in frame order |
| `Selection.FilterFilter` | spacex-dash-app.py:114-128 | masking twice equals masking once with the conjunction of the two masks |
| `Charts.PieRecords` | spacex-dash-app.py:81-92 | every record handed to the pie is from the table and, unless `ALL`, at the entered site; specified fully by `PieRecordsSelection` |
| `Charts.PieSlices` | spacex-dash-app.py:93-94 | the grouping by class has no empty slice and no more slices than records; specified by `PieSlicesDistinct`, `PieSlicesArePresentOutcomes`, `PieSliceForEveryOutcome` and `PieSliceCounts` |
| `Charts.PieChart` | spacex-dash-app.py:79-99 | the pie for a selector is the grouping of its selection, with at most one slice per record; specified by `PieTotalIsSelectionSize` and the lemmas on `PieSlices` |
| `Charts.PieRecordsSelection` | spacex-dash-app.py:79-92 | with `ALL` the pie uses the whole table; otherwise exactly the rows whose site equals the entered value, in order (membership in both directions) |
| `Charts.PieUnknownSite` | spacex-dash-app.py:90-93 | a site that no row has gives an empty selection and a pie with no slices |
| `Charts.PieSlicesDistinct` | spacex-dash-app.py:93-94 | no class value has two slices |
| `Charts.PieSlicesArePresentOutcomes` | spacex-dash-app.py:93-94 | no slice is for a class value that is absent from the selection (zero-count classes are omitted) |
| `Charts.PieSliceForEveryOutcome` | spacex-dash-app.py:93-94 | every class value present in the selection has a slice |
| `Charts.PieSliceCounts` | spacex-dash-app.py:93-94 | each slice's size is the number of selected records with its class, and is positive (no zero-size slices) |
| `Charts.PieTotalIsSelectionSize` | spacex-dash-app.py:81-98 | slice sizes sum to the size of the selection: the whole table for `ALL`, otherwise the number of rows of the site |
| `Charts.PieAtMostTwoSlices` | spacex-dash-app.py:83-88 | when every class is 0 or 1, the pie has at most two slices, each for 0 or 1 |
| `Charts.ExamplePieAll` | spacex-dash-app.py:81-89 | on a three-row example, `ALL` gives one failure and two successes |
| `Charts.ExamplePieKsc` | spacex-dash-app.py:90-99 | on the same example, `KSC` gives a single success slice |
| `Charts.ScatterRecords` | spacex-dash-app.py:109-137 | every plotted record is from the table with its payload in the closed range; specified fully by `ScatterIsOneSelection` and `ScatterSoundAndComplete` |
| `Charts.ScatterIsOneSelection` | spacex-dash-app.py:112-128 | range-then-site masking is one selection by "payload in [low, high], and site matches or `ALL`", in table order |
| `Charts.ScatterSoundAndComplete` | spacex-dash-app.py:114-128 | a record is plotted if and only if it is in the table, its payload is in the closed range, and the selector is `ALL` or its site |
| `Charts.ScatterEmptyRange` | spacex-dash-app.py:114-115 | `low > high` plots nothing |
| `Charts.ScatterSinglePoint` | spacex-dash-app.py:114-115 | with `low == high` only records at exactly that payload are plotted, and all of them (at the selected site) are |
| `Charts.ScatterSiteWithinAll` | spacex-dash-app.py:117-128 | for a fixed range, the points for any selector are a subsequence of the points for `ALL` |
| `Charts.ScatterUnknownSite` | spacex-dash-app.py:126-128 | a site that no row has gives no points, whatever the range |
| `Charts.ScatterDefaultShowsAll` | spacex-dash-app.py:112-120 | with `ALL` and the slider at its start-up value `[min_payload, max_payload]` (line 65), every row of a non-empty table is plotted |
| `Charts.ExampleScatter` | spacex-dash-app.py:112-128 | on the example, the range [0, 2600] gives the two CCAFS rows for `ALL` and nothing for `KSC` |

## Left out

- Reading the CSV file and re-raising a load error (spacex-dash-app.py:13-18). This is file I/O, so `Load` takes the parsed rows as input.
- A cleared site drop-down. The drop-down (spacex-dash-app.py:43-49) can be cleared, and then both callbacks receive `None`. `None == 'ALL'` is false and the site mask is false on every row, so both charts are empty. A `string` selector cannot be `None`; an unknown site behaves the same way (`PieUnknownSite`, `ScatterUnknownSite`).
- A CSV file without one of the three columns "Payload Mass (kg)", "Launch Site" or "class". `dropna` at spacex-dash-app.py:21 then raises a `KeyError` and start-up stops. The parsed rows are assumed to have these columns.
- The `logging` calls. They only produce log output.
- The Dash application, its layout, the drop-down and range-slider widgets, their marks, the 0–10000 display domain and the step. These are UI declarations.
- The `@app.callback` wiring and `app.run`. These are framework dispatch and HTTP serving.
- plotly figure construction: titles, colour maps, the `labels` argument, axis encoding, and the order in which slices are drawn. The model stops at the frame handed to `px.pie` and `px.scatter`, plus the pie's grouping by class.
- Unpacking `payload_range` into `low, high` (spacex-dash-app.py:112) is taken as two parameters. A list of another length would raise in Python; the slider never produces one.
- Floating-point payloads are exact `real`s, and NaN is `None`. Rounding plays no part in this code.
- pandas index labels. A selected row keeps its original label in pandas; the model keeps only row order.
