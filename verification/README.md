# Welsh 100 tracker — a Dafny model of its data core

The Welsh 100 tracker is a single-page app for recording which of the 100
Welsh peaks a walker has summited. Under its map, log book and charts sits a
small tabular core, and this project models that core and proves its
properties:

- **Catalog** (`catalog.dfy`): the peak list is read from the catalog file.
  The Height text has every `m` and `,` removed, is stripped of whitespace
  and is read as a whole number, or 0 when it is not one. The peaks are then
  ordered tallest first. A missing catalog file stops the program.
- **Progress store** (`progress.dfy`): the per-peak record holds Bagged,
  Date, Photo and ActivityLink. When the file is loaded, duplicate peak
  names keep their last row and a blank Bagged reads as false. When there is
  no file, one blank row per catalog peak is synthesised. Saving writes the
  whole table. The log book's edits upsert the Bagged flag or set one field
  on the peak's rows.
- **Unified view** (`view.dfy`): the catalog left-joined with the progress
  table on the peak name, with absent progress filled with false / "". The
  header statistics (total, summited, remaining, completion percent,
  elevation gained) and the per-region tallies come from this view, and so
  does the log book's search and All / To Do / Completed filter.
- **Names** (`naming.dfy`): the path an uploaded photo is stored under, and
  the checkbox key that carries the reset generation.
- **Session** (`tracker.dfy`): class `Tracker` holds the in-memory progress
  table, the persisted file and the reset generation. Its methods are the
  in-place edits, each followed by a save, and the factory reset.

The CSV reader and writer are abstracted as in-memory tables. The catalog
file is a `seq<CatalogRecord>`. The progress file is a `ProgressFile`
value, with a flag for whether it has the ActivityLink column. Saving is
`store := Some(Save(rows))` and deleting the file is `store := None`.
Whether the `/data` volume exists is a parameter. A blank Date, Photo or
ActivityLink cell is written `""`, because every reader of those columns
fills blanks with `""`.

## Model

| member | source | states |
|---|---|---|
| `Text.Strip` | welsh100.py:45 | `str.strip()`: the result has no whitespace at either end, is no longer than the input, and keeps any character absence of the input |
| `Text.StripPadded` | welsh100.py:45 | stripping removes exactly the whitespace padding around a text that has none of its own at the ends |
| `Text.RemoveAll` | welsh100.py:45 | `str.replace(c, '')`: no occurrence of `c` remains |
| `Text.RemoveAllAbsent` | welsh100.py:45 | removing a character that does not occur changes nothing |
| `Text.ParseNat` | welsh100.py:46 | `pd.to_numeric` restricted to digits: a value exactly for a non-empty digit string, nothing otherwise |
| `Text.ParseNatRoundTrip` | welsh100.py:46 | the digit parse reads back the decimal form of every natural number |
| `Text.UngroupThousands` | welsh100.py:45 | removing the commas of a thousands-grouped number ("1,085") leaves its plain decimal form |
| `Text.ReplaceChar` | welsh100.py:151 | `str.replace(a, b)` for one character: same length, every `a` becomes `b` and every other character is kept in place |
| `Catalog.CleanHeight` | welsh100.py:45 | the cleaned Height text contains no `m` and no `,` and has no whitespace at either end |
| `Catalog.NormaliseHeight` | welsh100.py:45-46 | a non-zero height comes only from a cleaned text that is a non-empty digit string; anything else is 0 |
| `Catalog.HeightOfCleanedDigits` | welsh100.py:45-46 | any Height text that becomes the decimal form of n, with whitespace around it, once every `m` and `,` is removed normalises to n, wherever the unit markers and commas stood |
| `Catalog.HeightReadsNumberText` | welsh100.py:45-46 | a number with commas anywhere in it, between two stretches of whitespace and unit markers (none, "m", " m", "m "), normalises to n |
| `Catalog.HeightReadsWrittenNumber` | welsh100.py:45-46 | a height written plainly or with thousands separators, with or without whitespace and an `m` unit around it, normalises to itself |
| `Catalog.HeightExamplePlain` | welsh100.py:45-46 | "1085" normalises to 1085 |
| `Catalog.HeightExampleUnit` | welsh100.py:45-46 | "1085m" normalises to 1085 |
| `Catalog.HeightExampleUnitSpace` | welsh100.py:45-46 | "1085m " normalises to 1085 |
| `Catalog.HeightExampleGrouped` | welsh100.py:45-46 | "1,085 m" normalises to 1085 |
| `Catalog.HeightOfNonNumber` | welsh100.py:46 | a text without unit, separators or padding that is not a digit string normalises to 0 |
| `Catalog.HeightExampleText` | welsh100.py:45-46 | "abc" normalises to 0 |
| `Catalog.Normalise` | welsh100.py:44-46 | normalising a record changes only the height: Height_Display keeps the original text, and name, region and coordinates are kept |
| `Catalog.NormaliseAll` | welsh100.py:44-46 | the column-wise normalisation keeps the number and order of records and normalises each one |
| `Catalog.InsertByHeight` | welsh100.py:49 | inserting into a tallest-first list keeps it tallest first and adds exactly that peak |
| `Catalog.SortByHeight` | welsh100.py:49 | the sorted catalog is tallest first and a permutation of its input |
| `Catalog.LoadCatalog` | welsh100.py:39-49 | a missing file gives no catalog; otherwise the catalog is a tallest-first permutation of the normalised records |
| `Progress.DedupKeepLast` | welsh100.py:54 | de-duplication leaves at most one row per peak and loses no peak name |
| `Progress.DedupKeepsLast` | welsh100.py:54 | the last row the file has for each peak is kept |
| `Progress.DedupOnlyLast` | welsh100.py:54 | every kept row is the last row the file has for its peak |
| `Progress.DedupKeepsLaterOfTwo` | welsh100.py:54 | of two rows for the same peak, only the later one survives |
| `Progress.DedupUnique` | welsh100.py:54 | a file with no duplicate peak is kept unchanged |
| `Progress.FromFileRow` | welsh100.py:55 | a blank Bagged reads as false and a stored flag is kept; name, Date and Photo are kept; ActivityLink is kept when the file has that column and reads as "" otherwise (the corrected behaviour of the finding below, which line 55 does not do) |
| `Progress.FromFileRows` | welsh100.py:55 | the fill is applied to every row, in order |
| `Progress.Defaults` | welsh100.py:57 | with no progress file there is exactly one row per catalog peak, in catalog order, not bagged, with Date, Photo and ActivityLink all "" |
| `Progress.LoadProgress` | welsh100.py:52-57 | a loaded file has one row per peak and the same peak names as the file; with no file the table is the defaults. It is the corrected loader: a file without the ActivityLink column loads with empty links instead of stopping the program (see Findings; `View.ViewAsWritten` models the program as written) |
| `Progress.ToFileRows` | welsh100.py:126 | the saved rows keep names and order, have no blank Bagged, and read back as the same table |
| `Progress.Save` | welsh100.py:126 | the written file has every column, one row per table row, and its rows read back as the table |
| `Progress.SaveLoadRoundTrip` | welsh100.py:52-55 | saving a table keyed by peak and loading it again gives the same table |
| `Progress.LoadSaveLoad` | welsh100.py:52-57 | a freshly loaded store is a fixed point of save-then-load |
| `Progress.Apply` | welsh100.py:125 | an edit changes only its own column of a row |
| `Progress.EditWhere` | welsh100.py:136 | a `.loc` assignment applies the edit to every row of the named peak and leaves every other row as it was |
| `Progress.EditKeepsNames` | welsh100.py:145 | an edit keeps the table's peak names, so a table keyed by peak stays keyed by peak |
| `Progress.EditAbsentIsNoop` | welsh100.py:156 | an edit naming a peak with no row leaves the table unchanged |
| `Progress.Upsert` | welsh100.py:120-125 | a peak with no row gets one new row with the name and the flag appended; otherwise Bagged is set on its rows |
| `Progress.UpsertEffect` | welsh100.py:121-125 | after the checkbox write the peak has a row, every row of it carries the new flag, the other rows and columns are unchanged, and names stay unique |
| `Progress.UpsertIdempotent` | welsh100.py:121-125 | ticking the same box twice gives the same table as once: one record, not two |
| `Naming.DataDir` | welsh100.py:14 | the data directory is absolute exactly when the `/data` volume exists, and never ends in a separator |
| `Naming.PhotosDir` | welsh100.py:16 | the photos directory is the data directory's `photos` subdirectory |
| `Naming.Join` | welsh100.py:152 | `os.path.join` keeps an absolute second part as it is |
| `Naming.PhotoFileName` | welsh100.py:151 | the photo file name has no spaces |
| `Naming.PhotoPath` | welsh100.py:151-152 | for a peak name that does not start with `/`, the photo is stored directly in the photos directory under its file name |
| `Naming.PhotoPathShape` | welsh100.py:151-152 | every photo path ends in `_`, the view position and `.jpg` |
| `Naming.PhotoPathsDistinct` | welsh100.py:151-152 | photos of two different view rows never get the same path |
| `Naming.CheckboxKey` | welsh100.py:116 | the text after the key's last `_` is the reset generation |
| `Naming.CheckboxKeysChangeOnReset` | welsh100.py:116 | checkbox keys of two different reset generations never coincide, whatever the row and peak |
| `View.Matching` | welsh100.py:59 | the join finds only rows that name the peak |
| `View.MatchingUnique` | welsh100.py:59 | in a table keyed by peak, a peak matches its own row or nothing |
| `View.JoinPeak` | welsh100.py:59-63 | each catalog peak contributes at least one view row, all of them carrying that peak |
| `View.Merge` | welsh100.py:59-63 | the left join has at least as many rows as the catalog, and every row carries a catalog peak |
| `View.MergeCovers` | welsh100.py:59-63 | whatever the progress table holds, every catalog peak has at least one row in the left join |
| `View.MergeIsRowFor` | welsh100.py:59-63 | with progress keyed by peak, view row i is catalog peak i joined with its progress |
| `View.MergeOneRowPerPeak` | welsh100.py:59-63 | with progress keyed by peak, the view has one row per catalog peak in catalog order; catalog fields are unchanged, and a peak gets its progress row's fields or false / "" when it has none |
| `View.ViewAsWritten` | welsh100.py:59-63 | the program shows no view exactly when the progress file lacks the ActivityLink column |
| `View.OldFileBreaksViewAsWritten` | welsh100.py:63 | a progress file with only Mountain, Bagged, Date and Photo columns gives no view as written |
| `View.OldFileLoadsWithEmptyLinks` | welsh100.py:52-63 | a file without the ActivityLink column gives one view row per peak, each with an empty link |
| `View.ViewAfterReset` | welsh100.py:57-63 | with no progress file every view row is unbagged with empty fields; when the catalog names each peak once there is exactly one row per peak |
| `View.JoinedDefaultsBlank` | welsh100.py:59-63 | joining with a table whose rows are all blank gives a view whose rows are all blank |
| `View.ToggleShowsInView` | welsh100.py:120-125 | after the checkbox write the peak shows the new flag in the next view and every other view row is unchanged |
| `View.BaggedCount` | welsh100.py:67 | the summited count never exceeds the number of rows |
| `View.BaggedElevation` | welsh100.py:70 | the elevation gained never exceeds the summed height of all rows |
| `View.Percent` | welsh100.py:69 | the percentage is bagged·100/total truncated (p·total ≤ bagged·100 < (p+1)·total), 0 when total is 0, and at most 100 |
| `View.PercentExample` | welsh100.py:69 | 1 of 3 is 33 percent |
| `View.Summarise` | welsh100.py:66-70 | total is the row count, summited plus remaining is the total, and the percentage lies in 0..100 (0 for an empty view) |
| `View.ElevationIgnoresUnbagged` | welsh100.py:70 | changing the height of an unbagged row does not change the elevation gained |
| `View.ElevationOverCompleted` | welsh100.py:70 | the elevation gained is the summed height of the rows bagged in the view |
| `View.RegionTally` | welsh100.py:168-169 | the tally has exactly the view's regions, each with a positive total and completed ≤ total |
| `View.RegionTallyCounts` | welsh100.py:168-169 | a region's tally is the number of its rows and of its bagged rows |
| `View.MatchesSearch` | welsh100.py:106 | a name matches exactly when the lower-cased term occurs somewhere in the lower-cased name; so the whole name matches, and a term longer than the name never does |
| `View.SearchExampleSnowdon` | welsh100.py:106 | searching "snow" finds "Snowdon" |
| `View.Shown` | welsh100.py:105-108 | no search with "All" shows every row; "To Do" shows only unbagged rows, "Completed" only bagged ones, and a search shows only matching names |
| `View.LogBook` | welsh100.py:105-108 | the log book lists exactly the view rows that match the search and the status filter |
| `View.LogBookAllIsView` | welsh100.py:105-108 | no search text and "All" list the whole view, in order |
| `View.LogBookCounts` | welsh100.py:107-108 | "To Do" and "Completed" split the listing; without a search they hold the header's remaining and summited counts |
| `Tracker.Tracker.constructor` | welsh100.py:22-23 | a session starts at generation 0 with the table loaded from the store by the corrected loader |
| `Tracker.Tracker.View` | welsh100.py:59-63 | every catalog peak has at least one row in the session's view |
| `Tracker.Tracker.Reload` | welsh100.py:52-57 | a re-run reloads the table from the store by the corrected loader and changes nothing else |
| `Tracker.Tracker.Persist` | welsh100.py:126 | the store becomes the saved table |
| `Tracker.Tracker.ToggleBagged` | welsh100.py:110-126 | for a catalog peak, the table becomes the upsert of the flag and is persisted; names stay unique and no peak outside the catalog is added |
| `Tracker.Tracker.SetDate` | welsh100.py:135-137 | for a catalog peak, Date is set on that peak's rows only and the table is persisted; the peak names do not change |
| `Tracker.Tracker.DeletePhoto` | welsh100.py:143-146 | for a catalog peak, Photo is set to "" on that peak's rows only and the table is persisted; the peak names do not change |
| `Tracker.Tracker.AttachPhoto` | welsh100.py:110-157 | for view row idx and its peak, the photo path is the one built from that row's name and position, Photo is set to it on the peak's rows only, and the table is persisted |
| `Tracker.Tracker.FactoryReset` | welsh100.py:181-187 | the progress file is gone and the generation is one higher |
| `Tracker.ResetThenReload` | welsh100.py:181-190 | after a reset and the re-run the table is the defaults, no peak is bagged, and no checkbox key matches an old one |

## Left out

- Streamlit widgets, CSS, tabs, expanders and the reactive re-execution model: these are presentation. A re-run is modelled only as `Tracker.Reload`. The "value changed" tests that guard the writes at lines 120 and 135 are widget logic, so the edit methods are called only when a change happens.
- The folium map and the plotly charts, including the mean of the coordinates: presentation and floating point.
- Latitude and longitude parsing (lines 47-48): the coordinates are carried as already-parsed optional values.
- File and image I/O: `read_csv`, `to_csv`, `os.path.exists`, `os.remove` of the progress file and of a photo, `os.makedirs`, the PIL thumbnail and save, base64 encoding. These are foreign calls. A save is "the table is persisted", and the backup download (lines 176-177) is the same serialisation as `Progress.Save`.
- Catalog.NormaliseHeight: only digit strings parse. Signs, decimals, exponents, the text "nan" and int64 limits of `pd.to_numeric` are not modelled; such text gives 0 here.
- Catalog.SortByHeight: pandas' default sort is not stable, so peaks of equal height may come out in any order. The model returns the stable order, and its contract states only what every order satisfies: tallest first, and a permutation of the input.
- View.Percent: the source computes `int((bagged / total) * 100)` in floating point, which can fall one below the integer quotient (29 of 100 gives 28). The model uses exact integer division.
- Progress.LoadProgress, Tracker.Tracker.constructor, Tracker.Tracker.Reload: these use the corrected loader, which reads a missing ActivityLink column as empty links. For such a file the program as written stops at line 63, so it shows no view, accepts no edit and never re-saves the file with the new column. Only `View.ViewAsWritten` and `View.OldFileBreaksViewAsWritten` model that stop; the session model does not.
- View.MatchesSearch: the search term is a regular expression with full Unicode case-insensitivity in the source. The model uses a plain substring test with ASCII case folding.
- Progress.FromFileRow: `astype(bool)` of Bagged tokens other than true, false and blank is not modelled.
- Date handling: reading a stored date back with `strptime` (lines 131-133) and the date picker's formatting are not modelled. A date reaches `Tracker.SetDate` as its text.
- View.RegionTally: the check that the catalog has a Region column (line 167) and groupby's dropping of blank regions are not modelled. The tally is a map, so the order of the chart's bars is not modelled either.
- A progress file missing the Mountain, Bagged, Date or Photo column, or a peak name that the CSV reader parses as a number, is not modelled. Only a missing ActivityLink column is (see Findings).
- Integer widths: heights and sums are unbounded integers. The source's int64 cannot overflow for realistic catalogs.
- Concurrency and durability: two sessions writing one file, and a crash between write and completion.

## Findings

| source | as written | input that shows it | evidently intended | confidence | as-written member | corrected member |
|---|---|---|---|---|---|---|
| welsh100.py:52-63 | A progress file written before activity links existed is loaded without adding its ActivityLink column. Filling that column at line 63 then fails with a missing-column error, so no page is shown. | A progress file with header `Mountain,Bagged,Date,Photo` and one row for Snowdon | The missing column reads as empty: every peak gets its row and an empty link | not executed; medium | `View.OldFileBreaksViewAsWritten` | `View.OldFileLoadsWithEmptyLinks` |
