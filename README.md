# Sea-ice extent dashboard: a verified model of its data path

This project models, in Dafny, the data path of the sea-ice extent dashboard (`src/app.py`):

- **Archive client.** `strip_tags` removes HTML tags from a listed href. `download_data` walks a listing page's anchors, skips the first one, and fetches and saves each other file. `check_if_data_exists` asks for consent once when the data directory is missing. With consent it creates the directory and downloads the north files, then the south files.
- **Loader.** The block at lines 57-65 concatenates every cached file's rows and sorts them by (year, month). It replaces the −9999 sentinel with a missing marker in every column, adds `day = 1` and a `Date`, and relabels the two region codes in place.
- **Interaction.** `update_graph` filters the table by region and by an inclusive year range. It then dispatches on the trend mode. In `'Yearly'` mode it adds one point per year, dated July 1, holding that year's mean extent.

Modules and files:

| file | module | contents |
|---|---|---|
| `wrappers.dfy` | `Wrappers` | `Option` (a missing cell, NaT, no match) and `Result` |
| `tags.dfy` | `Tags` | `re.sub('<[^<]+?>', '', s)` as a left-to-right scan into kept characters and removed tags, a declarative description of a match, and their agreement |
| `archive.dfy` | `Archive` | download planning, the consent rule, the cache state machine as a function, and the `DataStore` class with `DownloadData` and `CheckIfDataExists` |
| `loader.dfy` | `Loader` | the row types at each stage of the load, the sort, sentinel replacement, dating, relabelling, the `Frame` class and `Load` |
| `graph.dfy` | `Graph` | the filter, yearly grouping and mean, trend dispatch and `UpdateGraph` |
| `app.dfy` | `App` | the start-up sequence (consent, then halt or load) |

State that the source changes in place is modelled as classes. `DataStore` records whether the directory exists, how many prompts were shown, and the files downloaded (the listing request for each hemisphere is not recorded). `Frame` holds the loaded rows, whose region column is overwritten. Everything else is a function on values.

The model follows the code as written, including these behaviours:
- region codes are matched exactly against six spaces followed by `S` or `N`, and are not trimmed first;
- a year whose extents are all missing still gets a yearly point, whose mean is missing;
- a data directory that exists but holds no files aborts the load, because pd.concat refuses an empty list;
- −9999 becomes missing in every numeric column (year, month, extent, area), not only in the extent;
- the local file name is the raw href, and only the URL is tag-stripped;
- only an empty answer or exactly `y` counts as consent;
- `'Linear'` mode does not check for fewer than two points.

## Model

| member | source | states |
|---|---|---|
| Tags.TagLength | src/app.py:31 | a match found at the start of a string has at least three characters, fits in the string and starts with '<'; a string with no '<' has no match |
| Tags.TagLengthSpec | src/app.py:31 | the scan finds a match of length n exactly when the first n characters are '<', one or more non-'<' characters and '>', with no shorter such span (both directions) |
| Tags.CloseFromSpec | src/app.py:31 | the lazy `[^<]+?` scan stops at the first '>' after at least one character and fails at a '<' or at the end, in agreement with the declarative description |
| Tags.TagPrefixUnique | src/app.py:31 | at most one prefix of a string is a tag (the lazy quantifier picks a unique shortest span) |
| Tags.Scan | src/app.py:31 | the kept characters and removed tags of the substitution cover the input exactly, in order |
| Tags.ScanTokenises | src/app.py:31 | every removed span is a tag, and a character is kept only where no tag starts (leftmost-shortest matching, scan resumes after a match) |
| Tags.TokenisationUnique | src/app.py:31 | any two leftmost-shortest decompositions of one string are equal, so the scan is the substitution's only possible reading |
| Tags.StripTags | src/app.py:28-31 | the output is never longer than the input, and a string containing no '<' comes back unchanged |
| Tags.KeptNoLonger | src/app.py:31 | the kept text is never longer than the text the pieces cover |
| Tags.AllKept | src/app.py:31 | without a '<' every character is kept |
| Tags.StripTagsNotIdempotent | src/app.py:31 | `"<a<b>>"` becomes `"<a>"`, which becomes `""`: stripping twice differs from stripping once |
| Archive.Fetches | src/app.py:23-25 | one download per href, in order: the URL is the archive URL followed by the tag-stripped href, and the file name is the raw href |
| Archive.FetchesSnoc | src/app.py:23-26 | one more href appends exactly its download to the plan |
| Archive.Listed | src/app.py:23 | the first anchor (the parent-directory link) is skipped, the rest are kept in order, and no anchors give no hrefs |
| Archive.PlanDownloadsSpec | src/app.py:20-25 | with at most one anchor nothing is fetched; otherwise anchor i (for i ≥ 1) yields download i−1, made of the archive URL plus the stripped href and the raw href as file name |
| Archive.PlanDownloads | src/app.py:20-25 | the downloads for one hemisphere's listing: every anchor but the first, in order, each as archive URL plus stripped href and raw href; no ensures of its own, stated by `PlanDownloadsSpec` and the loop of `DataStore.DownloadData` |
| Archive.EffectiveResponse | src/app.py:39-40 | an empty answer is read as "y", any other answer as itself |
| Archive.ConsentsExactly | src/app.py:38-41 | consent holds exactly for "" and "y"; "Y", "yes" and "n" refuse |
| Archive.Consents | src/app.py:39-41 | the answer after the empty-answer rewrite is exactly "y"; no ensures of its own, stated by `ConsentsExactly` |
| Archive.CheckWhenCached | src/app.py:37-48 | an existing data directory gives True with no prompt, no directory change and no download |
| Archive.Check | src/app.py:33-48 | one call of the cache check as a transition of (directory, prompts, downloads) with the returned flag; no ensures of its own, stated by `CheckWhenCached`, `CheckWhenMissing` and `CheckTwice`, and implemented by `DataStore.CheckIfDataExists` |
| Archive.FirstRunDownloads | src/app.py:43-44 | a consenting first run downloads the north listing's plan, then the south listing's; no ensures of its own, used by `CheckWhenMissing` |
| Archive.CheckWhenMissing | src/app.py:37-47 | a missing directory gives one prompt; only consent creates the directory and appends the north downloads then the south downloads; a refusal returns False and leaves the directory absent and the log unchanged |
| Archive.CheckTwice | src/app.py:33-48 | once a call returned True, a second call returns True with no prompt and no download |
| Archive.DataStore.DownloadData | src/app.py:18-26 | the download log grows by exactly the plan for that hemisphere's listing; the directory flag and prompt count are unchanged |
| Archive.DataStore.CheckIfDataExists | src/app.py:33-48 | the new state and result are those of the state machine `Check` on the old state |
| Loader.Concat | src/app.py:57-58 | every row of every file is in the concatenation, and every row of it comes from some file |
| Loader.ConcatAppend | src/app.py:57-58 | a single file concatenates to itself, and concatenating two runs of files appends their concatenations, so every row appears once and in file order |
| Loader.BelowAll | src/app.py:58 | a row not after the inserted row nor after any sorted row is not after anything in their merge |
| Loader.Insert | src/app.py:58 | inserting into a (year, month)-sorted sequence keeps it sorted and adds exactly that row |
| Loader.SortByYearMonth | src/app.py:58 | the sorted rows are non-decreasing by (year, month) and a permutation of the input |
| Loader.IntCell | src/app.py:58 | an integer cell is missing exactly when it was −9999, never holds −9999, and otherwise keeps its value |
| Loader.Replace | src/app.py:58 | replace(-9999, pd.NA) on one row: each numeric cell through `IntCell` or `RealCell`, the region untouched; no ensures of its own, stated by `ReplaceAll`, `NormaliseRowCells` and `LoadedCells` |
| Loader.RealCell | src/app.py:58 | a floating-point cell is missing exactly when it was −9999, never holds −9999, and otherwise keeps its value |
| Loader.ReplaceAll | src/app.py:58 | the replacement is applied to every row and keeps the row count |
| Loader.WithDates | src/app.py:59-61 | fails exactly when some row has a recorded year and month that is no month of the year; otherwise every row keeps its cells, gets day 1, and is dated (year, month, 1) exactly when year and month are both recorded |
| Loader.ToDatetime | src/app.py:61 | to_datetime of one row: no date when year or month is missing, the date (year, month, day) for a month in 1..12, an error otherwise; no ensures of its own, stated by `WithDates` and `DatedSpec` |
| Loader.Relabel | src/app.py:64-65 | each row whose region equals the code exactly gets the new label; every other row is unchanged |
| Loader.RegionLabel | src/app.py:64-65 | "      S" becomes "Antarctica", "      N" becomes "Arctic", any other region is kept; no ensures of its own, stated by `RegionLabelExact` |
| Loader.RelabelRegions | src/app.py:64-65 | the south relabelling, then the north one; no ensures of its own, stated by `RelabelRegionsSpec` and `RelabelRegionsIdempotent` |
| Loader.RelabelRegionsSpec | src/app.py:64-65 | after both assignments each row differs from before only in its region, which becomes its code's label |
| Loader.RegionLabelExact | src/app.py:64-65 | only six spaces and `S` become "Antarctica", and only six spaces and `N` become "Arctic"; every other string, including a bare "S" or "N", passes through |
| Loader.RelabelRegionsIdempotent | src/app.py:64-65 | relabelling twice gives the same table as relabelling once |
| Loader.Frame.RelabelRegion | src/app.py:64-65 | the in-place overwrite leaves the frame's rows equal to the relabelled old rows |
| Loader.NormaliseAll | src/app.py:57-65 | the row-wise description maps each raw row to its normalised row, one for one |
| Loader.Normalised | src/app.py:57-65 | the load block: no files is an error (pd.concat of nothing), otherwise concatenation, sort, sentinel replacement and dating, then relabelling; no ensures of its own, stated by `NormalisedSpec`, `LoadedSorted`, `LoadedPermutation` and `LoadedCells` |
| Loader.DatedSpec | src/app.py:58-65 | dating and relabelling the sorted rows fails exactly when one of them cannot be dated, and otherwise equals the row-wise description |
| Loader.NormalisedSpec | src/app.py:57-65 | the whole load block fails exactly when there is no file (pd.concat of an empty list) or a row of some file cannot be dated, and otherwise yields the sorted concatenation with each row normalised |
| Loader.LoadedSorted | src/app.py:56-58 | the loaded table is non-decreasing by (year, month), with a missing year or month ordered as the −9999 it was |
| Loader.NormaliseInsert | src/app.py:58 | normalising after an insertion adds exactly the inserted row's normal form |
| Loader.NormaliseSort | src/app.py:58 | normalising the sorted rows gives a permutation of normalising the unsorted rows |
| Loader.LoadedPermutation | src/app.py:57-58 | the loaded table is a permutation of the normalised concatenation of all files' rows |
| Loader.NormaliseRowCells | src/app.py:58-65 | a row that can be dated holds no −9999 cell, has day 1, is dated (year, month, 1) exactly when year and month are recorded, and carries no raw hemisphere code |
| Loader.LoadedCells | src/app.py:58-65 | every loaded row holds no −9999 in any column, has day 1, a date (year, month, 1) exactly when year and month are recorded, and no unrelabelled hemisphere code |
| Loader.Load | src/app.py:57-65 | the load fails or succeeds as the block does, failing with `NoFiles` for an empty directory; on success a fresh frame holds exactly the loaded table |
| Graph.Filter | src/app.py:134 | the result holds exactly the table's rows of the chosen region whose year lies in the inclusive range, with their multiplicities; it is no longer than the table and is empty when the range is reversed |
| Graph.Selected | src/app.py:134 | the mask: the region equals the chosen one and a recorded year lies in the inclusive range; no ensures of its own, stated through `Filter` |
| Graph.FilterIsSubsequence | src/app.py:134 | the filter result is an order-preserving subsequence of the table |
| Graph.FilterKeepsSorted | src/app.py:134 | a table sorted by (year, month) filters to a sorted series |
| Graph.InsertYear | src/app.py:142 | adding a year to a strictly increasing key list keeps it strictly increasing and adds exactly that year |
| Graph.GroupYears | src/app.py:142 | the group keys are strictly increasing and are exactly the years some dated row falls in |
| Graph.YearExtentsAppend | src/app.py:142 | a year's group takes its extents row by row in table order: one row contributes its extent exactly when it is in the year and recorded, and two runs of rows contribute their extents appended |
| Graph.YearExtents | src/app.py:142 | the recorded extents of one year's group in table order; its only ensures is that it is no longer than the table, and its content is stated by `YearExtentsAppend` and `YearExtentsMembers` |
| Graph.YearExtentsMembers | src/app.py:142 | a value is among a year's recorded extents exactly when some row of that year records it |
| Graph.YearExtentsSpec | src/app.py:142 | a year's recorded extents are empty exactly when all its rows' extents are missing, and lie within any bounds of those rows' extents |
| Graph.SumWithin | src/app.py:142 | a sum of n values in [lo, hi] lies in [n·lo, n·hi] |
| Graph.MeanWithin | src/app.py:142 | a mean lies between any bounds of the values it averages |
| Graph.Mean | src/app.py:142 | .mean() of a group: missing for no values, otherwise the sum over the count; no ensures of its own, stated by `MeanWithin`, `YearPoint` and `YearlyExample` |
| Graph.YearPoint | src/app.py:142-143 | the point of a year is dated July 1 of that year (January 1 plus six months), and its value is missing exactly when the year has no recorded extent |
| Graph.AddMonths | src/app.py:143 | a date plus pd.DateOffset(months=n) on the first of a month; no ensures of its own, stated by `YearPoint` (January 1 plus six months is July 1) |
| Graph.YearlyTrend | src/app.py:142-143 | one point per group key, in key order, each being the point of that year |
| Graph.YearlyTrendYears | src/app.py:142-143 | the points' years are strictly ascending, each point is dated July 1 of a year some dated row falls in, and every such year has a point |
| Graph.YearlyTrendValues | src/app.py:142 | a point's value is the mean of its year's recorded extents; it is missing exactly when all of that year's extents are missing, and otherwise lies within their range |
| Graph.YearlyWithinRange | src/app.py:134-143 | on a table whose dates come from their own year, every yearly point lies inside the selected year range |
| Graph.YearlyExample | src/app.py:140-144 | rows (2010, 5.0), (2010, 7.0), (2011, missing) give the points (2010-07-01, 6.0) and (2011-07-01, missing) |
| Graph.TrendOverlay | src/app.py:140-154 | 'Yearly' adds the yearly means of the filtered series, 'Linear' adds the OLS trendline, and every other mode adds nothing |
| Graph.UpdateGraph | src/app.py:132-154 | the plotted series is the filter's result, so it holds exactly the selected rows with their multiplicities in table order, and the overlay is the trend mode's overlay of that series |
| App.Start | src/app.py:50-65 | the store ends in the state of the cache check (on a consenting first run: one prompt, the directory created, north then south downloads logged); start-up halts exactly when the directory was missing and consent was refused, without creating it or downloading; an existing directory is neither prompted for nor downloaded into; otherwise the frame holds the loaded table or the load's error is reported, including `NoFiles` for a directory with no files |

## Left out

- Network and HTML parsing: `requests.get` and `BeautifulSoup.find_all` are not modelled. The hrefs of a listing's anchors are a parameter. An anchor without an `href` (which raises `KeyError`) is not modelled.
- File system and process control are not modelled: `os.makedirs`, file writes, `listdir`, `read_csv`, `tqdm`, `print` and `sys.exit`. The directory is a flag, the writes are the download log, and the parsed files are a parameter of `Load`. A halt is the `Halted` outcome.
- Download failures are not modelled. A failed fetch that leaves a partial cache does not appear; the log records every planned download.
- The path join of the data directory and a raw href is not modelled (for example an absolute href); the log keeps the href as the file name.
- Dash layout, slider marks, radio items, the callback registration and `app.run` (lines 68-131 and 161-162) are not modelled. They are user-interface plumbing.
- Plotly figure construction and styling are not modelled. A figure is the series it plots plus an overlay.
- Graph.TrendOverlay: the 'Linear' overlay is a marker only. The OLS fit is computed by plotly and statsmodels in floating point, and its values are not modelled. The column reassignment at line 147 realigns by index and drops nothing, so the series is unchanged.
- Floating point is not modelled. Extents and areas are reals, and a mean is the exact sum divided by the count.
- Loader.SortByYearMonth: the order among rows with equal (year, month) is not modelled. `listdir` lists the files in arbitrary order, and the north and south files share every (year, month), so that order depends on the file system. The model sorts by insertion and states only sortedness and permutation.
- pandas' distinction between `pd.NA` and `NaN` is not modelled. Every missing cell is `None`.
- The `data-type` column is not modelled. It is a string column that no step changes or reads.
- Loader.WithDates: only an invalid month makes `to_datetime` fail in the model. pandas also fails on years outside its nanosecond timestamp range (about 1677-2262); that bound is not modelled.
- Graph.Filter: a row whose year is missing counts as not selected. pandas' comparison of `pd.NA` in an object column is not modelled.
- The rename of `' mo'` to `'month'` (line 60) is not modelled as a step. The model's field is already called `month`, and the day column is folded into `Date.day`.
