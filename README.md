# Timeline tracker — a verified model of its core

The timeline tracker is a single-script Streamlit app. A user files projects under
groups and records "marks" (entries) on days, each with a 0–100 percent and a
note. The script draws one horizontal swimlane per project of each group shown
by the group filter (a group listed twice in the filter gives its projects
twice, while projects of hidden groups get no row), with a circle for
each mark whose size follows the percent, above a grey baseline row holding one
full-size circle per day of the chosen window. On every interaction the script
re-runs from the top. The sidebar first reads the window and the group-filter
options from the session's state. Then the one button pressed in that run, if
any, changes the state. The chart is drawn from the state after that change.
So a group added or a mark saved in a run is not yet among that run's options,
and does not move that run's "all time" window. The model's run has no file in
the JSON uploader and leaves out the table editor's write-back after the chart;
"## Left out" says what each of them would change.

This project models that state and the computation that turns it into a chart:

- `Dates` covers dates as integer day numbers: `daterange`, the window presets,
  and the `min(start, end)` normalisation.
- `Sizing` covers `px_size`, the percent-to-pixels rule. The method `PxSize`
  reassigns the clamped percent as the script does. It is proved against the
  function `MarkerSize`.
- `OrderedDict` models a Python `dict` as an insertion-ordered list of pairs.
  Assigning to an existing key replaces its value in place, and assigning to a
  new key appends it. `ToMap` gives the mathematical map the dict stands for.
- `Text` covers `str.strip()` with Python's whitespace set, and `sorted()` on
  strings, which orders by code point.
- `Lists` covers `list(dict.fromkeys(...))`, the order-keeping de-duplication
  of the group list.
- `Timeline` holds the session state as a class `Store`: the group list, the
  project dictionary and the mark list. It has the three sidebar commands that
  change them in place: add group, add project and save mark.
- `Projection` covers one rebuild of the chart:
  - the group-filter options and the visible projects;
  - the marks inside the window;
  - the y-axis categories, built by the script's nested loop (`CategoryLabels`)
    and proved against the function `ShownLabels`;
  - the project-to-label map and the marker sizes;
  - the colour assignment (a loop that fills a map) and the figure height;
  - `Run`, one run of the script in that order: sidebar, command, chart.

In the model the entries filter looks up each mark's project in the *current*
project dictionary, as the script does at line 208. The group copied into a mark
when it was saved plays no part in whether the mark is drawn.

## Model

| member | source | states |
|---|---|---|
| Dates.DateRange | streamlit_timeline_tracker.py:27-30 | empty when `d1 < d0`; otherwise `d1 - d0 + 1` days, first `d0`, last `d1`, each one day after the previous |
| Dates.DateRangeMembers | streamlit_timeline_tracker.py:27-30 | a day is in `daterange(d0, d1)` exactly when `d0 <= day <= d1` |
| Dates.DateRangeStrictlyAscending | streamlit_timeline_tracker.py:27-30 | the days are strictly ascending, so none is repeated |
| Dates.Earliest | streamlit_timeline_tracker.py:102 | `min` over the mark days is one of them and no later than any of them |
| Dates.PresetStart | streamlit_timeline_tracker.py:89-104 | "all time" with marks starts at the earliest mark day |
| Dates.Normalize | streamlit_timeline_tracker.py:188 | `min(start, end)`: the end is kept; the preset start is kept when it is not after the end, and the end is used otherwise |
| Dates.DayCount | streamlit_timeline_tracker.py:189 | `len(all_days)`: `end - start + 1` days for a non-empty window, none otherwise |
| Dates.SelectWindow | streamlit_timeline_tracker.py:89-104 | the window ends on the chosen day and holds at least one day; 30, 60 and 90 days for the day presets; 180 days for "all time" with no marks; the month presets start the day after the shifted day, normalised |
| Dates.AllTimeCoversEveryEntry | streamlit_timeline_tracker.py:99-102 | "all time" starts no later than any mark up to the end day, and exactly at the earliest mark when that is not after the end |
| Sizing.ClampPercent | streamlit_timeline_tracker.py:36 | `max(0, min(100, percent))` lies in 0–100, keeps in-range values, sends larger ones to 100 and negative ones to 0 |
| Sizing.TowardZero | streamlit_timeline_tracker.py:37 | `int()` of the quotient: the largest multiple not above a non-negative numerator, the smallest not below a negative one |
| Sizing.PxSize | streamlit_timeline_tracker.py:33-37 | returns `MarkerSize`; 0 for a non-positive percent; `max_px` from 100 percent on; between `min_px` and `max_px` for any positive percent when `min_px <= max_px` |
| Sizing.MarkerSizeAtFull | streamlit_timeline_tracker.py:36-37 | every percent of 100 or more gives exactly `max_px` |
| Sizing.MarkerSize | streamlit_timeline_tracker.py:33-37 | the value `px_size` returns; a positive percent gives a size in `[min_px, max_px]` whenever `min_px <= max_px` |
| Sizing.MarkerSizeMonotone | streamlit_timeline_tracker.py:33-37 | when `0 <= min_px <= max_px`, a larger percent never gives a smaller marker |
| Sizing.BaselineMarkerSize | streamlit_timeline_tracker.py:236 | `px_size(100)` is 28 under the defaults 6 and 28 |
| OrderedDict.Get | streamlit_timeline_tracker.py:143 | a lookup finds a value exactly when the key is present; the value found is paired with the key, and is the key's only value when keys are distinct |
| OrderedDict.GetOr | streamlit_timeline_tracker.py:143 | `.get(k, default)`: the stored value for a present key, the default for a missing one |
| OrderedDict.Put | streamlit_timeline_tracker.py:126 | `d[k] = v` adds at most one pair and leaves `(k, v)` in the dict; its key order and lookups are `PutKeys` and `PutGet` |
| OrderedDict.Keys | streamlit_timeline_tracker.py:221 | `projects.keys()`: one key per pair, in insertion order, the i-th key belonging to the i-th pair |
| OrderedDict.ToMap | streamlit_timeline_tracker.py:126 | the map a dict denotes has exactly the dict's keys |
| OrderedDict.PutKeys | streamlit_timeline_tracker.py:126 | assignment keeps an existing key in its place and appends a new key at the end |
| OrderedDict.PutGet | streamlit_timeline_tracker.py:126 | after `d[k] = v`, `k` maps to `v` and every other key maps to what it mapped to before |
| OrderedDict.PutKeepsKeysDistinct | streamlit_timeline_tracker.py:126 | assignment never gives a key a second entry |
| OrderedDict.GetAgreesWithMap | streamlit_timeline_tracker.py:143 | looking a key up in the pair list agrees with looking it up in the map the dict denotes |
| OrderedDict.PutIsMapUpdate | streamlit_timeline_tracker.py:126 | on the denoted map, `d[k] = v` is the map update `m[k := v]` |
| Text.IsSpace | streamlit_timeline_tracker.py:145 | the whitespace `strip()` removes includes space, tab, newline and carriage return, and no printable ASCII character |
| Text.TrimStart | streamlit_timeline_tracker.py:145 | the result is a suffix of the note, what was cut is all whitespace, and the result does not start with whitespace |
| Text.TrimEnd | streamlit_timeline_tracker.py:145 | the result is a prefix of the note, what was cut is all whitespace, and the result does not end with whitespace |
| Text.Strip | streamlit_timeline_tracker.py:145 | `strip()` never lengthens the note and leaves no whitespace at either end |
| Text.StripCutsWhitespace | streamlit_timeline_tracker.py:145 | the stripped note is a contiguous piece of the note with only whitespace before and after it |
| Text.StripIdempotent | streamlit_timeline_tracker.py:145 | stripping a stripped note changes nothing |
| Text.NoSpaceEndsStripsToItself | streamlit_timeline_tracker.py:145 | a note without whitespace at its ends is stored unchanged |
| Text.StripEmptyIffAllSpace | streamlit_timeline_tracker.py:145 | a note strips to the empty string exactly when it is all whitespace |
| Text.LexLe | streamlit_timeline_tracker.py:215 | str `<=`: a prefix of a name sorts no later than the name, and a name sorts after each of its proper prefixes |
| Text.LexLeTotal | streamlit_timeline_tracker.py:215 | any two names compare one way or the other |
| Text.LexLeAntisymmetric | streamlit_timeline_tracker.py:215 | two names each no greater than the other are equal |
| Text.LexLeTransitive | streamlit_timeline_tracker.py:215 | the name order is transitive |
| Text.Insert | streamlit_timeline_tracker.py:215 | one insertion step makes the list one longer; what it adds and where are `InsertPermutes` and `InsertSorted` |
| Text.InsertPermutes | streamlit_timeline_tracker.py:215 | one insertion step adds exactly the inserted name |
| Text.InsertSorted | streamlit_timeline_tracker.py:215 | inserting into an ascending list keeps it ascending |
| Text.Sort | streamlit_timeline_tracker.py:215 | `sorted()` keeps the length; that it orders and permutes is `SortSorted`, that it is the unique such order is `SortedPermutationIsSort` |
| Text.SortSorted | streamlit_timeline_tracker.py:215 | `sorted()` returns a rearrangement of its input in ascending order |
| Text.SortKeepsDistinct | streamlit_timeline_tracker.py:221 | sorting names that are all different keeps them all different |
| Text.SortedPermutationIsSort | streamlit_timeline_tracker.py:215 | every ascending rearrangement of a list is `sorted()` of it, so the sorted order is unique |
| Lists.Dedup | streamlit_timeline_tracker.py:107 | the group options have no repeats; every group is among them and nothing else is |
| Lists.DedupKeepsFirstOccurrenceOrder | streamlit_timeline_tracker.py:107 | the options come in the order in which each group first occurs |
| Lists.DedupOfDistinct | streamlit_timeline_tracker.py:107 | a group list without repeats is offered unchanged |
| Lists.DedupIdempotent | streamlit_timeline_tracker.py:107 | de-duplicating twice gives the same as once |
| Timeline.NewEntry | streamlit_timeline_tracker.py:140-146 | a saved mark keeps the chosen day, project and percent; its group is the project's group, or `""` for a project the dictionary lacks; its note is the stripped note |
| Timeline.Store.constructor | streamlit_timeline_tracker.py:51-63 | a new session has groups "Личное" and "Работа", the projects "ЗОЖ" and "Диссертация" filed under them, and no marks |
| Timeline.Store.AddGroup | streamlit_timeline_tracker.py:115-119 | the name is appended exactly when it is non-empty and not yet listed, otherwise nothing changes; a list without repeats keeps none; projects and marks are untouched |
| Timeline.Store.AddProject | streamlit_timeline_tracker.py:124-129 | a non-empty name is assigned its group, replacing any earlier group, and every other project keeps its group; an empty name changes nothing; the dictionary keeps distinct keys |
| Timeline.Store.AddEntry | streamlit_timeline_tracker.py:139-147 | exactly one mark, `NewEntry` of the current dictionary, is appended; the earlier marks, groups and projects are untouched |
| Projection.LabelsCanCollide | streamlit_timeline_tracker.py:216 | two different projects can get the same row label when a name contains " • " |
| Projection.VisibleProjects | streamlit_timeline_tracker.py:192 | the visible projects are never more than the projects |
| Projection.VisibleProjectsMembers | streamlit_timeline_tracker.py:192 | a project is visible exactly when the dictionary files it under a shown group |
| Projection.Shown | streamlit_timeline_tracker.py:206-208 | the per-mark mask: for a dictionary with distinct keys, a mark passes exactly when its day is in `[start, end]` and its project's current group is shown |
| Projection.WindowEntries | streamlit_timeline_tracker.py:206-208 | the drawn marks are recorded marks that are inside the window with a visible project, and every such mark is drawn |
| Projection.WindowEntriesMembers | streamlit_timeline_tracker.py:206-208 | a mark is drawn exactly when its day is in `[start, end]` and its project's current group is shown |
| Projection.WindowEntriesConcat | streamlit_timeline_tracker.py:206-208 | the mask works mark by mark: the drawn marks of two runs of marks are those of the first followed by those of the second, so saving a mark adds it at the end of the drawn marks exactly when it is drawable |
| Projection.NamesIn | streamlit_timeline_tracker.py:215 | the per-group comprehension lists no more names than there are projects; which names is `NamesInMembers` |
| Projection.NamesInMembers | streamlit_timeline_tracker.py:215 | the names listed for a group are exactly the projects filed under it |
| Projection.NamesInDistinct | streamlit_timeline_tracker.py:215 | no project is listed twice for a group |
| Projection.Label | streamlit_timeline_tracker.py:216 | `f"{g} • {p}"` starts with the group, ends with the project and has the three separator characters between |
| Projection.GroupLabels | streamlit_timeline_tracker.py:215-216 | one label per project of the group; their order is `GroupLabelsSortedByName` |
| Projection.ShownLabels | streamlit_timeline_tracker.py:213-216 | at most one label per project for each shown group; the exact count, completeness and soundness are the `ShownLabels…` lemmas |
| Projection.CategoryLabels | streamlit_timeline_tracker.py:213-216 | the categories are the baseline followed by `ShownLabels`; the baseline is first; one label per visible project when no group is shown twice; every project of a shown group has its label among them |
| Projection.AppendGroups | streamlit_timeline_tracker.py:214-216 | the outer loop appends the blocks of the shown groups in the order they are shown |
| Projection.AppendGroup | streamlit_timeline_tracker.py:215-216 | the inner loop appends `g • p` for the group's projects in name order |
| Projection.CategoryLabelsFacts | streamlit_timeline_tracker.py:213-216 | baseline first, count `1 +` visible projects given a repeat-free filter, and completeness, for any list equal to the categories |
| Projection.ShownLabelsCount | streamlit_timeline_tracker.py:213-216 | with no group shown twice there are as many labels after the baseline as visible projects; two of those labels can be equal (`LabelsCanCollide`), and Plotly then draws both swimlanes on one row |
| Projection.ShownLabelsComplete | streamlit_timeline_tracker.py:213-216 | every project of a shown group has its `g • p` label among the categories |
| Projection.ShownLabelsSound | streamlit_timeline_tracker.py:213-216 | every category after the baseline is the label of some project of a shown group |
| Projection.GroupLabelsSortedByName | streamlit_timeline_tracker.py:215-216 | a group's block is `g • p` for its projects in ascending name order, whatever the dictionary order, with no name twice |
| Projection.ProjToCat | streamlit_timeline_tracker.py:219 | the comprehension of line 219, key by key; what it means for the chart is `SwimlaneOnCategory` |
| Projection.SwimlaneOnCategory | streamlit_timeline_tracker.py:244-247 | the swimlane of a project in a shown group uses `proj_to_cat[p]`, and that label is one of the categories |
| Projection.BaselineMarkers | streamlit_timeline_tracker.py:230-236 | the baseline row has one 28-pixel marker per day of the window: marker `i` is on day `start + i` |
| Projection.EntriesOf | streamlit_timeline_tracker.py:260-261 | a project's row holds exactly the drawn marks of that project |
| Projection.RowMarkers | streamlit_timeline_tracker.py:264-265 | the marker list of lines 264-265, mark by mark; its window and size bounds are `RowMarkersInWindow` |
| Projection.RowMarkersInWindow | streamlit_timeline_tracker.py:260-265 | every marker on a row lies inside the window and is either hidden (size 0) or 6 to 28 pixels |
| Projection.AssignColors | streamlit_timeline_tracker.py:220-222 | every project gets a colour and nothing else does; the i-th project in name order gets palette entry `i mod len(palette)`; with a repeat-free palette at least as long as the project list no two projects share a colour |
| Projection.ColorsDistinct | streamlit_timeline_tracker.py:220-222 | colours taken in turn from a long enough repeat-free palette are all different |
| Projection.SortedKeys | streamlit_timeline_tracker.py:221 | `sorted(projects.keys())` lists every project exactly once |
| Projection.EntryDates | streamlit_timeline_tracker.py:101-102 | the generator of line 102, mark by mark; how "all time" uses it is `SelectWindow` and `AllTimeCoversEveryEntry` |
| Projection.BuildChart | streamlit_timeline_tracker.py:188-292 | the chart of a run: group options without repeats and the preset's window (start never after end), both from the state the sidebar saw; the baseline row; the categories and drawn marks from the current state; a height of at least 400 |
| Projection.Run | streamlit_timeline_tracker.py:89-292 | one run with an empty uploader, up to the chart: at most one command changes the state as its button does; options and window come from the state before it, categories and drawn marks from the state after it; the baseline row of that window and a height of at least 400 from the categories |
| Projection.FigureHeight | streamlit_timeline_tracker.py:291-292 | `max(400, 56 * max(2, n))` is at least 400; it is 400 for up to 7 rows and `56 * n` from 8 rows on |
| Projection.FigureHeightMonotone | streamlit_timeline_tracker.py:291-292 | more category rows never make the figure shorter |

## Left out

- Streamlit itself is not modelled: widgets, expanders, messages and the
  rerun-on-interaction loop. `st.session_state` is the explicit `Store`. What
  the widgets return becomes a parameter. That covers the preset, the end day,
  the groups left selected in the filter, the form fields and the colour
  palette, which is Plotly's colour constants.
- Plotly figure building is not modelled: traces, dotted guide lines, hover
  text, range selector and slider. The reversal of the category list for
  display (line 298) is cosmetic.
- The pandas coercion of marks (lines 195-203) is library behaviour. Marks are
  records with an integer day and an integer percent.
- JSON export and import (lines 151-173) are file I/O and parsing. The import
  is not all-or-nothing: a failure while the projects are read (line 169)
  comes after the groups have already been replaced (line 168). Nothing here
  claims otherwise.
- The table editor's write-back (lines 327-357) is driven by widget output.
- Projection.Run: the model's run assumes the JSON uploader holds no file.
  The import's only guard is `if uploaded is not None:` (line 165). The
  uploader keeps its file across reruns, so every rerun with a file in it
  replaces groups, projects and marks after the run's button (lines 116, 126,
  147) and before the chart (line 188 on). A group, project or mark added in
  such a run is overwritten before it is drawn. `Run` does not capture that.
- Projection.Run: the write-back after the chart (lines 341-355) runs on every
  run that has marks, even with no edits. It rewrites each mark's project,
  group and note with `str(...).strip()`. Line 126 stores a project name
  unstripped, so a mark for a project named with surrounding whitespace is
  drawn in the run that saves it and is gone from the next run's chart. `Run`
  leaves the marks as the button left them, so it does not capture that.
- Dates.PresetStart: the 6- and 12-month presets (lines 95-98) use
  `relativedelta` calendar arithmetic. The day it gives is an input,
  `CalendarMonths(shiftedEnd)`.
- `_today()` reads the wall clock, and `to_iso` only formats dates. Days are
  unbounded integers, without Python's year 1–9999 limits.
- Sizing.PxSize: the script divides by 100 in floating point and then
  truncates with `int()`. The model truncates the exact quotient toward zero.
  The two agree for the integer percents 0–100 and the sizes 6 and 28 the app
  uses. Float rounding for other `min_px`/`max_px` values is not modelled.
- Timeline.Store.AddEntry: the script offers the form only when some project
  exists, and it picks the project from the sorted keys. The model accepts any
  project name and gives a missing one the group `""`, as `.get` does.
- Timeline.Store.AddProject: the group comes from a select box over the group
  list. With an empty list Python would store `None`; the model always takes a
  string.
- Track identifiers, upserts, click routing and sizing markers by note length
  do not occur in the script and are not modelled.
