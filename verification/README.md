# Work-item dashboard: a verified model of its data rules

The dashboard reads work items, time entries, folders and lookup tables from a database. It filters them by sidebar choices and shows metrics, budget-versus-actual tables, a value-stream (folder) hierarchy with a search, and a list of stale items. This project models in Dafny the logic between loading and rendering, and proves what that logic computes.

- **Folder hierarchy** (`Folders`, `FolderPaths`).
  - `build_folder_hierarchy` has three loops: it indexes the folder rows into a dict, links each folder to its parent's child list or to the root list, and has `set_level` assign depths from every root. They are methods over a `map`, with the dict's insertion order kept as a sequence.
  - `get_folder_path` is a method with its `while` loop.
- **Items per folder** (`FolderItems`).
  - Covers the nested helpers `get_items_for_folder_tree`, `get_direct_items_for_folder` and `has_items_in_tree`, the `relevant_roots` loop, and the value-stream search.
  - The tree collection and the has-items check recurse through child lists exactly as the code does. The termination measure is a ghost descent: the child-link path from the folder the recursion started at.
- **Formatting** (`Formatting`, `Text`).
  - `format_time_detailed` on integer seconds.
  - The sign of `calculate_variance`.
  - The `+` prefix of `format_variance`.
  - The budget status labels.
- **Main's rules** (`Dashboard`).
  - The default Sunday-to-Sunday date window and the unpacking of the chosen range.
  - The archived, date, user, id-name and completion filters, in the order applied.
  - The filter on time entries.
  - The completed and in-progress counts.
  - The per-row budget columns and their sums, and the per-board status.
  - The stale-item rule.
- **Shared pieces.** `Records` holds the rows and `drop_duplicates(subset=['id'])`. `Seqs` holds filtering and the subsequence order. `Wrappers` holds `Option`.

A null cell (`None`, `NaN`, `NaT`) is `Option.None`. Dates are day numbers counted from 1970-01-01, and timestamps are whole seconds. For these comparisons with a null, the model gives the result pandas gives:
- `isin` never matches a null;
- `archived != True` keeps a null;
- a comparison with `NaT` is false.

The root-folder fallback's `~parent_number.str.startswith('F')` on a null parent is the exception; "## Left out" says what the model does there.

Parent cycles among folders are handled as the code handles them:
- No folder on or below a cycle is a root, so `set_level` never reaches it and it keeps level 0.
- On a folder ON a cycle, `get_items_for_folder_tree` recurses until Python raises `RecursionError`: the folder always has a child on the same cycle (`Folders.CycleChild`), and the helper visits every child. Its model therefore requires a folder that is not on a cycle. A folder below a cycle is allowed: its subtree is finite.
- `has_items_in_tree` returns as soon as it meets a non-empty direct frame, so on a folder on a cycle it may return `True`. It raises `RecursionError` only when no folder it visits before entering the cycle for good has a direct item. Its model requires a folder that is not on a cycle. The code calls it only on roots (line 1477), and a root is never on a cycle (`Folders.ChainIsDescent`), so that requirement holds at every call the code makes.
- `get_folder_path`'s `while` loop never stops on a folder on or below a cycle. Its model requires a walk that stops.

## Model

| member | source | states |
|---|---|---|
| Folders.IndexRows | streamlit_dashboard.py:536-545 | one dict entry per folder number, keyed in the order numbers first occur, each holding the data of the last row with that number and no children yet |
| Folders.InsertedKeys | streamlit_dashboard.py:536-545 | the dict's keys are exactly the folder numbers, each listed once in iteration order |
| Folders.InsertedLastWins | streamlit_dashboard.py:538-545 | a duplicated folder number keeps the data of its last row |
| Folders.InsertedFirstOrder | streamlit_dashboard.py:536-545 | keys iterate in the order their numbers first occur in the rows |
| Folders.ChildrenInSpec | streamlit_dashboard.py:548-553 | a folder's child list holds exactly the folders whose parent it is, in dict order, each once |
| Folders.RootsInSpec | streamlit_dashboard.py:547-553 | the root list holds exactly the folders whose parent is null or not a folder number, in dict order, each once |
| Folders.LinkChildren | streamlit_dashboard.py:547-553 | the linking loop leaves each node's child list equal to its children in dict order and returns the roots in dict order |
| Folders.LinkedShape | streamlit_dashboard.py:547-553 | after linking, the parent pointers are unchanged and the child lists are exactly the inverse of them |
| Folders.ChainUnique | streamlit_dashboard.py:556-559 | parent pointers are single-valued, so at most one root chain leads to a folder |
| Folders.ChildNotOnChain | streamlit_dashboard.py:556-559 | a child of the last folder on a root chain is not already on the chain, so `set_level` never revisits a folder |
| Folders.ChildStep | streamlit_dashboard.py:558-559 | recursing into a child extends the root chain and strictly shrinks the set of folders not yet on it |
| Folders.ChainIsDescent | streamlit_dashboard.py:547-553 | a root is on no parent cycle, so its chains are descents |
| Folders.CycleChild | streamlit_dashboard.py:1291-1294 | a folder on a parent cycle always has a child on the cycle, so the child recursion from it never reaches a leaf |
| Folders.DescentUnique | streamlit_dashboard.py:1291-1294 | two child chains from a folder that is not on a cycle, ending at the same folder, are equal |
| Folders.DescentOffCycle | streamlit_dashboard.py:1291-1294 | no folder below a folder that is not on a cycle is itself on a cycle |
| Folders.DescentStep | streamlit_dashboard.py:1292-1294 | recursing into a child extends the descent and strictly shrinks the set of folders not yet on it, so the recursion from a folder not on a cycle ends |
| Folders.SetLevel | streamlit_dashboard.py:556-559 | `set_level(n, level)` writes depth along every root chain through `n`, changes only `level` fields, and leaves every folder outside `n`'s subtree as it was |
| Folders.AssignLevels | streamlit_dashboard.py:561-562 | after `set_level(root)` for every root, each folder a root reaches has its chain depth as level (roots 0, children one more than their parent), and every other folder, i.e. each on or below a parent cycle, keeps level 0 |
| Folders.LevelsKeepLinks | streamlit_dashboard.py:556-562 | writing levels changes neither the parent pointers nor the child lists |
| Folders.BuildFolderHierarchy | streamlit_dashboard.py:533-564 | the returned dict and roots are well formed: keys are the folder numbers in first-occurrence order, with the last row's title, parent and item count; child lists invert the parent pointers; roots are exactly the folders with a null or non-folder parent; levels are the root-chain depths |
| FolderPaths.FolderPath | streamlit_dashboard.py:566-576 | the loop returns the titles met while walking up from the folder, joined root-first with `" > "` |
| FolderPaths.NotAFolderPath | streamlit_dashboard.py:569 | an empty number, or one that is not a folder, has the empty path |
| FolderPaths.TopLevelPath | streamlit_dashboard.py:569-576 | a folder with a null parent has exactly its title as path |
| FolderPaths.PathStep | streamlit_dashboard.py:569-576 | a folder's path is its parent's path, `" > "` and its title; when the parent is missing, empty or not a folder, it is the title alone |
| FolderPaths.ChainPath | streamlit_dashboard.py:566-576 | for a folder at the end of a root chain of non-empty numbers, the walk stops and the path lists the chain's titles root first |
| FolderPaths.ChainPathEnds | streamlit_dashboard.py:566-576 | the walk up from every folder a root reaches stops, so its path is defined |
| FolderItems.ParentItemsSpec | streamlit_dashboard.py:1279 | the frame `parent_number == f` holds items whose parent is `f`, carries the ids of all such items, and keeps ids distinct |
| FolderItems.RootItemsSpec | streamlit_dashboard.py:1284-1287 | the fallback frame holds items with `root_folder_number == f` and a null parent or one not starting with `F`, carrying the ids of all such items |
| FolderItems.DirectItemsSpec | streamlit_dashboard.py:1303-1319 | the direct frame holds only the folder's direct items: those with parent `f`, plus, for a level-0 folder, the fallback items. It carries exactly their ids, and its ids are distinct when the items' ids are |
| FolderItems.DirectItemsOrder | streamlit_dashboard.py:1306-1319 | the direct frame keeps the rows' order: a subsequence of the items by parent followed by the fallback items |
| FolderItems.DirectHoldsOwnItems | streamlit_dashboard.py:1306-1319 | with distinct item ids, every item whose parent is `f` (and every fallback item of a level-0 folder) is in the direct frame |
| FolderItems.SubtreeSplit | streamlit_dashboard.py:1291-1296 | the ids of a folder's subtree are its own items' ids together with the subtree ids of each child |
| FolderItems.TreeItems | streamlit_dashboard.py:1274-1300 | for any folder not on a parent cycle, or any number that is not a folder, the tree frame has pairwise-distinct ids, holds only input items, and its id set is the folder's own parent and fallback ids together with those of every child's tree (only its own ids when `f` is not a folder) |
| FolderItems.OwnParts | streamlit_dashboard.py:1276-1289 | the first two frames appended carry exactly the folder's parent and fallback ids |
| FolderItems.CollectChildTrees | streamlit_dashboard.py:1292-1296 | the child loop appends frames that add exactly the union of the children's subtree ids |
| FolderItems.DirectInTree | streamlit_dashboard.py:1303-1319 | every id of the direct frame is an id of the tree frame |
| FolderItems.DirectNonEmpty | streamlit_dashboard.py:1467-1469 | the direct frame is non-empty exactly when the folder directly owns some item |
| FolderItems.TreeHasSplit | streamlit_dashboard.py:1465-1475 | a subtree holds a directly owned item exactly when its top folder does or some child's subtree does |
| FolderItems.HasItemsInTree | streamlit_dashboard.py:1465-1475 | `has_items_in_tree(f)` is true exactly when some folder of the subtree of `f`, `f` included, has a non-empty direct frame |
| FolderItems.AnyChildHasItems | streamlit_dashboard.py:1471-1474 | the loop with early return is true exactly when some child's subtree has a directly owned item |
| FolderItems.ChildHasItems | streamlit_dashboard.py:1472 | the call for one child is true exactly when that child's subtree has a directly owned item |
| FolderItems.RelevantRoots | streamlit_dashboard.py:1462-1478 | the relevant roots are the roots, in order, whose tree holds a directly owned item; a root is listed exactly when its tree does |
| FolderItems.MatchFolder | streamlit_dashboard.py:1497-1511 | for a matching folder, an entry exactly when its tree frame is non-empty; the entry's title, path, level, tree frame and direct frame are the ones the helpers compute |
| FolderItems.SearchValueStreams | streamlit_dashboard.py:1494-1511 | whenever the search ends (no matching folder on a parent cycle, and a path walk that stops for each matching folder with items): nothing for an empty query; otherwise the entries appear in dict order, each for a folder whose lower-cased title contains the lower-cased query and whose tree frame is non-empty, and every such folder has an entry |
| FolderItems.ReachedSearchReady | streamlit_dashboard.py:1497-1507 | a search whose matching folders are all reached from a root ends |
| FolderItems.SearchDistinct | streamlit_dashboard.py:1498-1510 | no folder has two entries in the search results |
| Records.DedupeIds | streamlit_dashboard.py:1299 | `drop_duplicates(subset=['id'])` keeps the first item of each id, in the rows' order: ids distinct, the same id set, each kept row the first of its id, the result a subsequence of the rows, and the kept ids in the order of their first rows |
| Records.DedupeRepeatedRow | streamlit_dashboard.py:1299 | a row repeated after a row of another id is dropped and the first two rows keep their order: `[a, b, a]` gives `[a, b]` |
| Seqs.FilterCount | streamlit_dashboard.py:693 | boolean indexing keeps each row that passes as often as it occurs in the table, and no row that fails |
| Records.DedupeDistinct | streamlit_dashboard.py:1299 | de-duplicating items whose ids are already distinct changes nothing |
| Text.Contains | streamlit_dashboard.py:1498 | Python's `in` on strings: true exactly when the substring occurs at some position |
| Text.IntToStringInjective | streamlit_dashboard.py:443 | distinct integers print differently in an f-string |
| Formatting.SplitSeconds | streamlit_dashboard.py:441-442 | the hours and minutes satisfy `0 <= m < 60` and `h*3600 + m*60 <= s < h*3600 + m*60 + 60`, and `h >= 0` when `s >= 0` |
| Formatting.RenderInjective | streamlit_dashboard.py:443 | the text `"{h}h {m}m"` determines `h` and `m` |
| Formatting.FormatTimeSameMinute | streamlit_dashboard.py:437-443 | two non-zero durations print alike exactly when they have the same whole minutes |
| Formatting.FormatTimeZero | streamlit_dashboard.py:439-440 | `"0h 0m"` is printed exactly for a null value and for durations in `[0, 60)` seconds |
| Formatting.FormatTimeNonNegative | streamlit_dashboard.py:441-443 | a non-negative duration's text starts with a digit |
| Formatting.NegativeTimeAsWritten | streamlit_dashboard.py:441-443 | as written, -1800 seconds prints as `"-1h 30m"`, the corrected text for -5400 seconds |
| Formatting.SignedTimeFaithful | streamlit_dashboard.py:1019 | the corrected signed format prints two non-zero durations alike exactly when they have the same sign and the same whole minutes of magnitude |
| Formatting.SignedParts | streamlit_dashboard.py:1019 | the corrected text starts with `-` exactly for a negative duration and then shows the magnitude |
| Formatting.VarianceSign | streamlit_dashboard.py:445-452 | the variance is 0 when the estimate is null or 0; otherwise its sign is that of `(actual - estimated) / estimated`, a null actual counting as 0 |
| Formatting.VariancePrefix | streamlit_dashboard.py:454-458 | a `+` is shown exactly for a positive variance, a `-` exactly for a negative one |
| Formatting.BudgetStatus | streamlit_dashboard.py:1024-1026 | Over Budget exactly when the variance is positive, Under Budget exactly when negative, On Target exactly when zero |
| Formatting.PrefixMatchesStatus | streamlit_dashboard.py:454-458 | with a positive total estimate, the overall variance delta (line 998) shows `+` exactly when the totals are over budget and `-` exactly when under |
| Dashboard.Weekday | streamlit_dashboard.py:610 | `date.weekday()` lies in `[0, 7)` |
| Dashboard.LastSunday | streamlit_dashboard.py:610-611 | `last_sunday` is a Sunday at most 6 days before today, and is today when today is a Sunday |
| Dashboard.DefaultWindow | streamlit_dashboard.py:612-620 | with `min_date <= max_date` the defaults satisfy `min_date <= start <= end <= max_date`; the window is at most 14 days; when the two weeks before last Sunday fit in the data it is exactly that window |
| Dashboard.UnpackDateRange | streamlit_dashboard.py:629-632 | an empty tuple fails (the `IndexError` of `date_range[0]`), a pair gives its two dates, any other tuple gives its first date twice, and a sorted pair gives `start <= end` |
| Dashboard.NotArchived | streamlit_dashboard.py:693 | keeps, in order, exactly the items whose `archived` flag is not true, null flags included, each kept row as often as it occurs in the input |
| Dashboard.InWindow | streamlit_dashboard.py:696-699 | keeps, in order, exactly the items added on a day in the window; null dates are dropped, each kept row as often as it occurs in the input |
| Dashboard.BySelection | streamlit_dashboard.py:702-706 | unchanged when "All" is selected; else keeps, in order, exactly the items whose name is selected, null names dropped, each kept row as often as it occurs in the input |
| Dashboard.ByNamedId | streamlit_dashboard.py:709-726 | unchanged when "All" is selected; else keeps, in order, exactly the items whose id names a selected entry, each kept row as often as it occurs in the input |
| Dashboard.ByCompletion | streamlit_dashboard.py:729-732 | "All" keeps everything; "Completed" keeps exactly the items with a completion time, "In Progress" exactly those without, each kept row as often as it occurs in the input |
| Dashboard.FilterWorkItemsSpec | streamlit_dashboard.py:690-732 | the filtered items are a subsequence of the items holding exactly the items that pass every sidebar condition, each kept row as often as it occurs in the input |
| Dashboard.FilterTimeEntries | streamlit_dashboard.py:735-741 | keeps, in order, exactly the entries started on a day in the window whose author is selected, or all such entries when "All" is selected, each kept row as often as it occurs in the input; the entries carry no id, so identical entries are all kept |
| Dashboard.CountsAddUp | streamlit_dashboard.py:748-756 | completed plus in-progress counts equal the number of filtered items |
| Dashboard.TotalVariance | streamlit_dashboard.py:974-988 | summing the per-row variances gives total actual minus total estimated |
| Dashboard.StatusBySums | streamlit_dashboard.py:1010-1026 | a board is Over Budget exactly when its actual total exceeds its estimated total, Under exactly when less, On Target exactly when equal |
| Dashboard.BoardVarianceSign | streamlit_dashboard.py:1019-1026 | the corrected per-board variance text starts with `-` exactly when the board is Under Budget |
| Dashboard.OverallVarianceUnsigned | streamlit_dashboard.py:986-997 | the overall variance metric carries no minus sign and is the corrected board text of the same rows with the sign removed |
| Dashboard.DoneIceboxLanes | streamlit_dashboard.py:1663-1666 | given the lane dict's keys in iteration order (each key once), the loop collects, in that order, exactly the lanes of the dict whose lower-cased name contains "done" or "icebox" |
| Dashboard.StaleByLaneName | streamlit_dashboard.py:1660-1680 | with the lane list the loop returns, an item is stale exactly when its lane is not a done or icebox lane of the dict (a null or unknown lane is not), it was last updated before now minus three days, and it has no recent time entry; each stale item appears as often as in the items |
| Dashboard.StaleLaneNotDone | streamlit_dashboard.py:1663-1669 | a stale item in a lane of the dict sits in a lane whose name contains neither "done" nor "icebox" |
| Dashboard.StaleSpec | streamlit_dashboard.py:1660-1680 | an item is stale exactly when it is a filtered item outside every done or icebox lane (a null lane counts as outside), was last updated before now minus three days, and has no time entry added since then; stale items keep their order and their number of copies |

## Left out

- Database access, the SQL loaders and their fallbacks, schema introspection, caching, the CSS, widgets, charts, cards and CSV export are I/O or rendering. The clock (`datetime.now()`, `pd.Timestamp.now`) is a parameter: `today`, or `now` in seconds.
- `test_connection.py` is not part of this model: it is a connection smoke test that only prints.
- The percentage value of `calculate_variance`, `format_seconds`, and every `%.1f` rendering are floating point. Only the zero-estimate guard and the sign are modelled (`Formatting.VarianceSign`, `Formatting.VariancePrefix`).
- `format_json_field`, `format_datetime` and the pandas `.dt.days` arithmetic are left out. They are library parsing and formatting.
- The groupings by board, work type and user, `value_counts` and `nlargest` are not modelled. A board's rows are modelled as a given sequence, and only sums over it are modelled.
- The "Total Time Tracked" metric (lines 759-760) is `format_time_detailed` of the sum of `time_spent_seconds`, which is `Dashboard.SumActual`. It has no member of its own.
- The "Items with Estimates" count (line 1001) is not modelled; it is only displayed.
- `Text.Lower` lower-cases ASCII letters only. Python's `str.lower` also folds non-ASCII letters.
- `Dashboard.DayOf` takes the UTC day of a timestamp. The local time-zone conversion pandas may apply is not modelled.
- `Dashboard.EstimatedSeconds` takes `likely_estimate` as whole hours (an integer), while the column may hold fractional hours.
- `FolderItems.SearchValueStreams` requires a search that ends: no matching folder on a parent cycle, and for each matching folder whose tree has items, a path walk that stops. In the code, a matching folder on a cycle raises `RecursionError` in `get_items_for_folder_tree`. A matching folder below a cycle is skipped when its tree is empty; when its tree has items, `get_folder_path` loops forever. The model leaves out these failures rather than modelling them.
- `FolderItems.TreeItems` requires a folder that is not on a parent cycle, or a number outside the hierarchy. On a folder on a cycle the code raises `RecursionError`. `Folders.CycleChild` shows why: the recursion has no leaf there.
- `FolderItems.HasItemsInTree` requires a folder that is not on a parent cycle, or a number outside the hierarchy. On a folder on a cycle the code may still return `True` by an early return. The model does not cover that case. The code's only call (line 1477) is on a root, which meets the requirement.
- `FolderPaths.FolderPath` requires a walk that stops. On a folder on or below a parent cycle, the code's `while` loop runs forever.
- `FolderItems.TreeItems` states the ids, the distinctness and the membership of the tree frame. It does not state the row order of the concatenated frames (own items, fallback items, then each child's tree).
- `FolderItems.RootItemsSpec`, and with it `RootFallback`, `MergedSpec`, `DirectItemsSpec`, `DirectItems`, `OwnParts` and `TreeItems`, counts an item with a null `parent_number` as a fallback item. That is the evident intent of `isna() | ~str.startswith('F')` at lines 1286 and 1312. In the code, on an object column holding `None`, `.str.startswith` yields a null, and `~` on it raises `TypeError` in pandas 2.x.
- `Dashboard.DoneIceboxLanes` takes lane names as strings. A null lane name (the `name` column read at line 345 and turned into a dict at line 675) would make `lane_name.lower()` at line 1665 raise. The model does not have that case.
- `Folders.FolderRow` has a `title` that is a string. A null folder title would make `.lower()` (line 1498) and `' > '.join` (line 576) raise. The model does not have that case.
- `FolderItems.HasItemsInTree` is a recursive method whose child loop returns early, as the code does. Its result is tied to the specification predicate `TreeHasDirect`.
- `Dashboard.DoneIceboxLanes` takes the lane dict's keys in iteration order as a sequence, required to list every key of the dict once and nothing else.

## Findings

| source | as written | input that shows it | evidently intended | confidence | as-written member | corrected member |
|---|---|---|---|---|---|---|
| streamlit_dashboard.py:1019 (with :441-443; the same call on signed deltas recurs at :1131, :1174, :1228, :1392, :1597, :1634) | the per-board "Variance" column applies `format_time_detailed` to a possibly negative number of seconds; floor division then gives negative hours with positive minutes | a board 30 minutes under budget (variance -1800 seconds) shows `"-1h 30m"`, the text a board one and a half hours under budget would get | a sign followed by the magnitude's hours and minutes, `"-0h 30m"`, as the overall metric at line 997 formats the magnitude with `abs` | not executed | Formatting.NegativeTimeAsWritten | Formatting.FormatSignedTime, with Formatting.SignedTimeFaithful and Dashboard.BoardVarianceSign |
