# Nobel laureate map: the data layer of js/map.js

This project models the data-reshaping core of the Nobel laureate map in
Dafny and proves what that core promises. The core takes laureates.json,
the country-coordinate table, the world GeoJSON and prizes.json. It turns
them into the numbers the map and the charts draw.

- **Enrichment** (`Enrichment`, the loop in `combine`). Each laureate object
  is updated in place. It gets the latitude and longitude of the first
  coordinate row whose `country` equals its `bornCountryCode`, or `null`
  for both when there is no such row. `name` becomes
  `firstname + " " + surname`, and both parts are deleted.
- **Year window** (`YearFilter`). This covers `filterPrizesByYearRange` and
  the same inclusive test on `prizes[0].year` inlined in
  `showLaureateMarkers` and `drawGenderPieChart`.
- **Bar-chart data** (`PrizeCounts`). `prizesCountByYearCategory` groups the
  prize records by year. `categoryCount` gives each of the six categories
  the `laureates` length of the last record of that category; it overwrites
  rather than sums.
- **Markers** (`Markers`). `filterLaureatesByGenderCategory` runs for the
  twelve gender × category icons. `setMarker` appends one marker per
  laureate with truthy coordinates to the global `markers` array, which is
  modelled as the class `MarkerLayer`. The click handler collects the
  coordinates of the laureates who share the clicked prize, and draws a
  polygon unless there is exactly one.
- **Choropleth** (`Choropleth`). Laureates are counted per birth country with
  `d3.nest`, and `addPropertitytoGeoJson` writes the counts into the
  features in place. `getColor` picks the fill colour, and the legend probes
  it at `grades[i] + 1`.
- **Gender pie** (`GenderPie`). The laureates of the window are counted per
  gender.

Three shared modules support these:

- `Js` models JavaScript property values: missing, `null` or present. It
  also gives their string form and the truthiness of numbers.
- `Collections` defines `Filter`. Every selecting push loop of the source
  (js/map.js:117-122, 174-179, 466-470, 554-558) is a method proved equal
  to `Filter` of a named predicate.
- `Nest` models `d3.nest().key(…)` as a grouping in first-appearance order
  and `.rollup(v.length)` as counts. Only order-free facts are proved about
  it.

Laureates and GeoJSON features are classes, because the source mutates
them in place. Fields it never writes are `const`.

## Model

| member | source | states |
|---|---|---|
| Collections.FilterIsSubsequence | js/map.js:174-179 | a push-loop's result is the order-preserving subsequence of exactly the elements satisfying the test: element k is the input at the k-th kept index, the kept indices increase, and an index is kept iff its element passes |
| Collections.FilterMultiset | js/map.js:117-122 | a selecting loop keeps every occurrence of each element that passes the test and drops every occurrence of one that fails |
| Collections.FilterIdempotent | js/map.js:174-179 | filtering a filtered sequence again by the same test changes nothing |
| Enrichment.LookupIsFirstMatch | js/map.js:50-54 | the coordinate lookup is empty iff no row has the laureate's code, and otherwise returns the first row that has it |
| Enrichment.DisplayName | js/map.js:55 | the name is the first name, one space and the surname, in that order |
| Enrichment.Enrich | js/map.js:49-58 | afterwards every laureate has the first matching row's latitude/longitude (or null/null), `name` is its old first name + " " + old surname, and `firstname`/`surname` are gone |
| Enrichment.EnrichOne | js/map.js:50-57 | the same state for the one laureate the loop body works on |
| YearFilter.FilterPrizesByYearRange | js/map.js:173-180 | the result is exactly the bar-chart records whose year lies in [minyear, maxyear], in input order |
| YearFilter.FilterLaureatesByYearRange | js/map.js:466-470 | the result is exactly the laureates whose first prize year lies in [minyear, maxyear], in input order (the same loop is js/map.js:554-558) |
| YearFilter.WindowBoundaries | js/map.js:176 | both bounds are inclusive, and a year just before minyear or just after maxyear is dropped |
| YearFilter.InvertedWindowIsEmpty | js/map.js:176 | a window with minyear > maxyear keeps nothing |
| YearFilter.NarrowWindow | js/map.js:173-180 | filtering by one window and then another equals filtering once by their intersection |
| YearFilter.YearFilterIdempotent | js/map.js:173-180 | filtering again by the same window changes nothing |
| PrizeCounts.CategoryCount | js/map.js:156-164 | the loop returns the `laureates` length of the last record of the category, 0 if there is none |
| PrizeCounts.LastCountWithoutMatch | js/map.js:157-163 | with no record of the category the count is 0 |
| PrizeCounts.LastCountIsLastMatch | js/map.js:159-161 | otherwise it is the `laureates` length of the last record of that category |
| PrizeCounts.LastCountIsSumWhenUnique | js/map.js:156-164 | when a year holds at most one record per category, the overwritten count equals the sum |
| PrizeCounts.LastCountIsNotASum | js/map.js:159-161 | with two records of one category in a year, the count is the last one's size (1), not the total (3) |
| PrizeCounts.PrizesCountByYearCategory | js/map.js:131-148 | one record per distinct input year, with no year twice; every input year present and no other; each record's six fields are `categoryCount` over exactly that year's prize records |
| PrizeCounts.YearRecordsFromNest | js/map.js:132-146 | records built from any correct year grouping, in any group order, have those properties |
| Nest.GroupByIsNest | js/map.js:132-134 | the grouping has distinct keys; each group holds exactly the records of its key, in input order; the keys are exactly the keys occurring in the input; group sizes add up to the input length |
| Nest.CountByCorrect | js/map.js:332-335 | the rollup has distinct keys; each count is the positive number of records with that key; every record's key is present; the counts add up to the number of records |
| Markers.FilterLaureatesByGenderCategory | js/map.js:116-123 | the result is exactly the laureates of the given gender whose first prize is in the given category, in input order |
| Markers.SelectionIsOwnIcon | js/map.js:119 | a laureate is in an icon's selection iff the icon is its own gender and first-prize category |
| Markers.SelectionsPartition | js/map.js:475-486 | no laureate is in two of the twelve selections, and a laureate is in one iff its (gender, category) is one of the twelve |
| Markers.IconsByCategory | js/map.js:475-486 | the twelve lines draw each category's women then men, in the order chemistry, economics, literature, medicine, peace, physics |
| Markers.MarkersForExactly | js/map.js:494-517 | `setMarker` gives a marker exactly to the laureates of its data with truthy coordinates, placed at those coordinates, with the call's icon |
| Markers.AllMarkersExactly | js/map.js:475-517 | after the selections are drawn, every marker is for a laureate with coordinates and carries its own icon, and every laureate with coordinates whose icon is drawn has a marker |
| Markers.MarkerLayer.SetMarker | js/map.js:494-517 | the global marker list grows by exactly the markers of the data, in order |
| Markers.MarkerLayer.ShowLaureateMarkers | js/map.js:464-486 | returns the laureates of the window and appends the markers of the twelve selections in the source's order |
| Markers.MarkerLayer.DrawCategory | js/map.js:475-476 | the two lines of one category append the women's markers, then the men's |
| Markers.MarkerLayer.DrawSelection | js/map.js:475 | one line appends the markers of that icon's selection |
| Markers.ConnectLaureatesShareOnePrize | js/map.js:531-541 | the polygon's corners are the coordinates of the laureates who share the prize and have coordinates, in order; the polygon is drawn iff their number is not 1 |
| Markers.SamePrizeCoordsExactly | js/map.js:532-537 | every corner belongs to an eligible laureate, and every eligible laureate gives a corner |
| Markers.NoCoords | js/map.js:538 | there are no corners iff no laureate is eligible |
| Markers.ClickedPolygon | js/map.js:524-541 | a click on an eligible laureate's marker always yields a corner, and the polygon is drawn iff another eligible laureate shares the prize |
| Choropleth.LastMatchUnique | js/map.js:389-395 | with distinct entry keys, a feature matches no entry iff no key equals its `id2`, and otherwise it takes the count of the entry with its key |
| Choropleth.AddPropertitytoGeoJson | js/map.js:388-397 | returns the same feature array; each feature's count is that of the last entry whose key equals its `id2`, and it is unchanged when none does |
| Choropleth.ShowCountryLaureatesCount | js/map.js:330-338 | a feature whose `id2` is the birth country of some laureate gets the number of laureates born there; every other feature keeps its count |
| Choropleth.CountryCountIsAnnotated | js/map.js:332-338 | writing the country rollup into a feature gives exactly that count |
| Choropleth.NoLaureateNoEntry | js/map.js:332-338 | a country with no laureate has no rollup entry |
| Choropleth.CountryCountsSum | js/map.js:332-335 | the per-country counts add up to the number of laureates, and each is the number of laureates born in that country |
| Choropleth.GetColorIsBucket | js/map.js:404-413 | `getColor` is the palette colour of the number of thresholds (0, 5, 10, 20, 50, 100, 200) the count strictly exceeds |
| Choropleth.GetColorMonotone | js/map.js:404-413 | a larger count never gets a lighter colour |
| Choropleth.TransparentIffNoCount | js/map.js:404-413 | the colour is "transparent" iff the count is missing, null or not positive |
| Choropleth.ExceededAt | js/map.js:404-413 | over increasing thresholds, a count above grades[i] and at most grades[i + 1] exceeds exactly i + 1 of them |
| Choropleth.ExceededMonotone | js/map.js:404-413 | the bucket of a count never decreases as the count grows |
| Choropleth.LegendMatchesMap | js/map.js:370-374 | legend row i shows the colour that the map gives every count in (grades[i], grades[i + 1]], or above grades[i] in the last row |
| Choropleth.LegendDistinct | js/map.js:367-374 | the seven legend probes `grades[i] + 1` get seven different colours |
| GenderPie.DrawGenderPieChart | js/map.js:552-563 | one slice per gender present in the window, with distinct keys; each slice's count is the positive number of laureates of that gender in the window; every laureate of the window is counted, and the counts add up to their number |

## Left out

- Records.Awards: every laureate is assumed to hold at least one prize. On an empty `prizes` array the source throws a TypeError at js/map.js:119/467/533/555; the dataset never has one.
- Rendering is not modelled: the stacked bar chart, the pie's arcs and labels, the Leaflet tiles, the choropleth style, highlight and info controls, popups and the DOM legend. Only the colours they are given (`getColor`, the legend probes) are modelled.
- Loading the four files with `d3.queue` and the error branch of `combine` are asynchronous I/O; the model starts from the parsed records.
- The slider handler and the initial calls in `combine` are UI event wiring (js/map.js:60-104). So are adding and removing map layers. The marker list is modelled as only ever growing, as in the source.
- The click handler reads the year and category back out of the popup's HTML with a regular expression. The model takes them as parameters.
- `Number()` parsing of the coordinate table: rows carry already-parsed `real` coordinates, and NaN is not modelled, so `Truthy` is "present and non-zero".
- Years are integers. The source compares year strings with numbers through JavaScript coercion, and the click handler uses `===`. Both are modelled as comparisons of the same integer.
- The order of `d3.nest` groups comes from the library. The model builds them in first-appearance order, but no lemma depends on that order.
- Enrichment.Enrich: requires the laureate objects to be distinct. The parsed JSON never aliases them. If the same object appeared twice, its second pass would read the name parts already deleted.
- Markers.MarkerLayer.ShowLaureateMarkers: the popup text, the click binding and `map.addLayer` are not part of a marker; a marker holds its laureate, position and icon.
- GenderPie.DrawGenderPieChart: the pie's three fill colours are not modelled. Nor is the fact that a fourth gender would get none.
