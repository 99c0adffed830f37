# Plotting helpers of the GISAID pipeline, in Dafny

This project models the deterministic core of `Plotting_Functions.py`. That file is the plotting
layer of a pipeline that tracks SARS-CoV-2 variants through time. Once its CSV reads and its
matplotlib drawing are cut away, what is left is a set of rules over strings, integers and ordered
sequences. The model states each rule exactly and proves what it promises:

- **Region catalogue** (`regions.dfy`, module `Regions`):
  - `Protein_Region` and its inclusive `check_position`.
  - The reader of a reference file (`initialize_regions`), over the lines of the file. The header
    is skipped; each record is stripped, split on `,` into exactly three fields and converted
    with `int()`.
  - The lookup `region_checker`: the dash sentinel gives `"-"`, the first region in file order
    that holds the position wins, and `"Other"` is the answer when none does.
- **Labels** (`labels.dfy`, module `Labels`):
  - The three display functions and their sentinels: the dash region, and the
    case-insensitive `zero_mutations_in_<protein>` code.
  - The layout choice of `code_region_index`.
  - The partial map `long_types` and its application to a whole `Type` column.
- **Tables** (`tables.dfy`, module `Tables`):
  - `rearrange_cols` and `add_dashes`.
  - The subset filter and the left join of `prepare_TS`; a join miss gets `"-"`.
  - The top-n step of `prepare_top_n`: a descending sort, the slice `[0:n]`, then a reindex in
    rank order.
  - `complex_region_query`.
- **Dictionaries** (`dicts.dfy`, module `Dicts`): `check_region_paths` and `fill_defaults`. Both
  complete a dictionary the caller holds, in place. Such a dictionary is a `Dict` object with a
  `map` field.
- **Line styles** (`styles.dfy`, module `Styles`): `variant_color_cycler` and
  `color_shape_cycler`. Each is an index loop that gives the i-th variant a colour (`i % C`), a
  marker and the marker settings that go with them.
- **Paging** (`paging.dfy`, module `Paging`): the page split of `multi_page_heatmap`.
  - The page count uses Python's floor division and modulo, written out (negative page size
    included).
  - Each page has its row slice, its title with `<page>` replaced, and its output path.
- **Date labels** (`dates.dfy`, module `Dates`): `dates_for_graph` with `year="first"`.
  - The loop that collects the indices at which the year of the end dates changes.
  - The label loop that prefixes those weeks with their year.
- **Variant combinations** (`combos.dfy`, module `Combos`): the four cells of `variant_combos`.
  Missing `Variants` are filled with `" "`; the cells come from substring containment of both
  codes, and each cell sums `Cluster_Size`.
- **Axis limits** (`axes.dfy`, module `Axes`): the argument checks of `plot_n_seq` and its
  linear y-limit rule (a multiple of 500 with a floor of 7500).

Three modules support the rest. `Text` (`text.dfy`) writes out the Python string primitives the
code relies on: `strip`, `split`, `lower`, `int()`, `str()`, `in` between strings, and `replace`.
`Arithmetic` (`arithmetic.dfy`) holds small facts about multiplication, division and remainders.
`Outcomes` (`outcomes.dfy`) holds `Option` and `Result`.

Python's exceptions become the `Failure` side of a `Result`:
- `ValueError` from unpacking or `int()`, and the `ValueError` of `long_types`;
- `ZeroDivisionError`;
- the `AttributeError` of `None.replace`;
- the `IndexError` of the fixed-size cycler;
- pandas' `KeyError`.

Python truthiness is written out where the code tests it:
- `""`, `[]`, `None` and `0` are false;
- `subset_codes=[]` keeps every row;
- `y_max=0` counts as not given;
- an empty `color_list` falls back to the defaults;
- an empty `marker_list` is kept.

Edge cases of the code that the model keeps as they are:
- An empty `subset_codes` list does not filter: the code tests `if subset_codes:`
  (Plotting_Functions.py:45).
- `sort_values` uses the default, unstable sort (line 720), so the model promises only a
  non-increasing order.
- `multi_page_heatmap` with its default `common_title=None` fails on the first page, because
  `None` has no `replace` (line 1075).
- `variant_color_cycler` supports only sixty variants. The sixty-first asks for a sixth marker
  and raises `IndexError` (line 1138).

## Model

| member | source | states |
|---|---|---|
| Regions.RegionChecker | Plotting_Functions.py:135-145 | the dash sentinel gives `"-"`; a position inside some region gets the name of the first region in catalogue order that holds it (and no earlier region holds it); a position in no region gets `"Other"` |
| Regions.Region.CheckPosition | Plotting_Functions.py:96-103 | a position is inside exactly when `start <= position <= end`, both ends included; a region that holds a position is non-empty |
| Regions.FirstMatchWins | Plotting_Functions.py:96-103 | with inclusive bounds, a position inside region `k` and outside every earlier region is labelled with region `k`'s name |
| Regions.Collect | Plotting_Functions.py:125-131 | the records in order when every line parsed; otherwise the error names a bad line, and every line before it parsed |
| Regions.CollectFirstFailure | Plotting_Functions.py:125-131 | the read stops at the first line that fails and reports that line's index and reason |
| Regions.ParseRegionLine | Plotting_Functions.py:127-131 | a parsed record's name holds no comma; a field-count error reports a count other than three; a conversion error names a field `int()` rejects |
| Regions.ParseRegionFile | Plotting_Functions.py:122-132 | an empty file or a header alone gives no regions; a successful read gives one region per line after the header; an error names a line after the header |
| Regions.InitializeRegions | Plotting_Functions.py:110-132 | the loop that appends one region per line after the header agrees with the file reading `ParseRegionFile` |
| Regions.ParseRegionFileShape | Plotting_Functions.py:122-132 | the read succeeds exactly when every line after the header parses; it then yields one region per such line, in file order; otherwise its error is the first bad line, with that line's reason |
| Regions.RecordFields | Plotting_Functions.py:127-129 | a record line whose fields hold no comma, whose name does not start with whitespace and whose last field ends in a digit strips and splits back into its three fields |
| Regions.RegionLineRoundTrip | Plotting_Functions.py:88-90 | a record written as `name,str(start),str(end)` reads back as the same region |
| Regions.RegionFileRoundTrip | Plotting_Functions.py:122-132 | a written catalogue reads back as itself, whatever its header line |
| Labels.DisplayRegion | Plotting_Functions.py:258-262 | the bare code exactly when the region is `"-"`, otherwise `"{code} ({region})"` |
| Labels.DisplayProtein | Plotting_Functions.py:275-279 | the bare code exactly when the lowered code equals `zero_mutations_in_` plus the lowered protein, otherwise `"{protein}: {code}"` |
| Labels.DisplayRegionAndProtein | Plotting_Functions.py:294-298 | the bare code exactly when the region is `"-"`, otherwise `"{protein}: {code} ({region})"` |
| Labels.ZeroMutationsAnyCase | Plotting_Functions.py:275 | the sentinel is recognised whatever the letter case of its literal part, of the protein and of the code |
| Labels.DisplayProteinInjective | Plotting_Functions.py:279 | two different non-sentinel codes of one protein get different labels |
| Labels.DisplayRegionAndProteinInjective | Plotting_Functions.py:298 | two different codes in one non-dash region of one protein get different labels |
| Labels.ChooseMode | Plotting_Functions.py:218-238 | each of the four layouts is chosen exactly when its truthiness condition on `protein` and `region_colname` holds |
| Labels.CodeRegionIndex | Plotting_Functions.py:199-245 | one label per row in row order, made by the chosen layout; the code column is dropped, and the region column too when one is given; only the code-only layout warns, and it still indexes by the code |
| Labels.ZeroMutationsRowBare | Plotting_Functions.py:136-138 | the zero-mutations row gets the dash from the region lookup and is shown as its bare code in every layout |
| Labels.LongTypes | Plotting_Functions.py:1349-1353 | an input outside the table is an error naming that input |
| Labels.LongTypesKinds | Plotting_Functions.py:1344-1348 | exactly the five short codes convert, each to the long name of its kind |
| Labels.MutationNamesDistinct | Plotting_Functions.py:1344-1348 | the five kinds have distinct short codes and distinct long names |
| Labels.LongTypeColumn | Plotting_Functions.py:473 | the column converts exactly when every code does, giving each code's long name in order; otherwise the error is that of the first unknown code, and no partial column comes back |
| Tables.FindColumn | Plotting_Functions.py:197 | a name is found exactly when the frame has a column of that name; the index is that of the first such column |
| Tables.Remaining | Plotting_Functions.py:197 | the names not chosen: an element exactly when it is a column name outside `firstcols`, and free of repeats when the names are |
| Tables.RemainingOne | Plotting_Functions.py:197 | a single name is kept exactly when it was not chosen |
| Tables.RemainingConcat | Plotting_Functions.py:193-197 | the leftovers of a concatenation are the leftovers of its parts, one after the other; with `RemainingOne` this fixes the other columns in their original order |
| Tables.FirstAbsent | Plotting_Functions.py:197 | the first of the asked names the frame lacks |
| Tables.Select | Plotting_Functions.py:197 | `df[names]` succeeds exactly when every name is present; the result has the names in the order asked, each column being the frame's first column of that name; a failure names a column the frame lacks |
| Tables.RearrangeCols | Plotting_Functions.py:191-197 | succeeds exactly when every chosen column exists; the rows are unchanged; the column names are the chosen ones followed by the others in their original order; every column comes from the frame, and a well-formed frame stays well-formed |
| Tables.OrderDistinct | Plotting_Functions.py:197 | with distinct names and distinct choices, the new order has no repeats |
| Tables.SelectCovers | Plotting_Functions.py:197 | selecting in an order that covers every name picks every column of the frame |
| Tables.RearrangeColsPermutes | Plotting_Functions.py:191-197 | with distinct column names and chosen columns that exist, the result is a permutation of the original columns and of their names |
| Tables.AddDashes | Plotting_Functions.py:171-189 | the rows are unchanged; a column of one dash per row under the new name replaces an existing column of that name where it stands, otherwise it is appended last; every other column is unchanged; a well-formed frame stays well-formed |
| Tables.Isin | Plotting_Functions.py:49 | the kept rows are rows of the input whose code is among the keys |
| Tables.IsinCounts | Plotting_Functions.py:49 | every row whose code is a key keeps all its occurrences, and every other row is dropped |
| Tables.IsinConcat | Plotting_Functions.py:49 | the filter keeps relative order: filtering a concatenation concatenates the filtered parts |
| Tables.IsinKeeps | Plotting_Functions.py:727 | the filter keeps every row whose code is a key |
| Tables.SubsetRows | Plotting_Functions.py:44-49 | `None` and the empty list keep the table as it is; any other list keeps exactly the rows whose code it names, each as often as in the input |
| Tables.Matches | Plotting_Functions.py:69 | the positions recorded for a code are non-empty exactly when the code-position table has the code |
| Tables.MatchesUnique | Plotting_Functions.py:69 | in a table without repeated codes, a code present at row `k` matches only row `k`'s position |
| Tables.JoinRow | Plotting_Functions.py:69-71 | as many joined rows as the code has matches, one per match with that match's position, or a single row with the dash for a miss; each keeps the code and weeks of the input row |
| Tables.LeftJoin | Plotting_Functions.py:69-71 | the join has at least as many rows as the input, and exactly as many when the codes are unique |
| Tables.LeftJoinConcat | Plotting_Functions.py:69 | the join keeps the row order: joining a concatenation concatenates the joined parts |
| Tables.JoinPositions | Plotting_Functions.py:57-71 | without the variant catalogue the step fails; with a catalogue free of repeated codes, row `i` of the result is row `i` of the input with its looked-up position, or the dash for a miss |
| Tables.LookupUnique | Plotting_Functions.py:69-71 | in a table without repeated codes, a miss looks up the dash and a hit looks up the code's only position |
| Tables.LeftJoinUnique | Plotting_Functions.py:69-71 | with unique codes the join keeps the row count and attaches each row's looked-up position |
| Tables.Insert | Plotting_Functions.py:720 | inserting into a non-increasing sequence keeps it non-increasing and adds exactly the new entry |
| Tables.SortDescending | Plotting_Functions.py:720 | a non-increasing arrangement of the same entries |
| Tables.SliceLength | Plotting_Functions.py:720 | the length of the slice `[0:n]` is at most the length of the input |
| Tables.TopN | Plotting_Functions.py:719-720 | the slice has Python's length, `min(n, len)` for `n >= 0` and none for `n == 0`; it is non-increasing and a sub-multiset of the entries; every kept entry ranks at least as high as every entry left out |
| Tables.PrefixOfDescending | Plotting_Functions.py:720 | a prefix of a non-increasing sequence ranks at least as high as the rest, and the rest is what the prefix leaves |
| Tables.Keys | Plotting_Functions.py:730 | the codes of the ranked entries, in rank order |
| Tables.RowFor | Plotting_Functions.py:730 | a row of that code is found exactly when the matrix has one |
| Tables.FirstDuplicate | Plotting_Functions.py:730 | no repeated code is found exactly when the row codes are unique |
| Tables.Reindex | Plotting_Functions.py:730 | fails exactly when the matrix repeats a code; otherwise it gives one row per key, in key order; a row has values exactly when the matrix has that code, and then they are that row's values |
| Tables.TopNMatrix | Plotting_Functions.py:716-730 | the reindex succeeds exactly when the filtered matrix has unique codes; it then returns one row per kept entry, in rank order; a row holds values exactly when the matrix has a row of that code, and then they are that row's weeks |
| Tables.AnyEqual | Plotting_Functions.py:412 | `any(resi == t for t in targets)` holds exactly when the residue is among the targets |
| Tables.ComplexRegionQuery | Plotting_Functions.py:400-412 | true exactly when the protein is the target and the residue is one of the target residues |
| Dicts.Completed | Plotting_Functions.py:392-397 | the keys are the old keys plus the listed proteins; old entries keep their path and new ones map to `None` |
| Dicts.CheckRegionPaths | Plotting_Functions.py:388-398 | the loop updates the caller's dictionary in place to its completion and returns that same dictionary |
| Dicts.CompletedIdempotent | Plotting_Functions.py:392-397 | completing twice is completing once, and every listed protein ends up with a key |
| Dicts.WithDefaults | Plotting_Functions.py:1233-1239 | the keys are the caller's plus the defaults'; the caller's values win, and the defaults fill the rest |
| Dicts.WithDefaultsLaws | Plotting_Functions.py:1233-1239 | filling is idempotent, fills nothing when every default is given, and changes nothing with no defaults |
| Dicts.FillDefaults | Plotting_Functions.py:1220-1241 | a missing or empty dictionary is answered with the defaults object, unchanged; otherwise the caller's dictionary is completed in place and returned |
| Styles.StyleFor | Plotting_Functions.py:1140-1156 | the colour and marker asked for and `mew=1`; `#111111` gets `mfc="#888888"` and `mec="#111111"`, every other colour no `mfc` and `mec="#00000088"`; `ms` is 10 for `p` and `^` and 8 for every other marker |
| Styles.MarkerIndex | Plotting_Functions.py:1193-1194 | the shifted marker indices are always in range |
| Styles.FitsCapacity | Plotting_Functions.py:1185-1194 | within the capacity `C * M`, every position has a marker under every scheme |
| Styles.StyleMap | Plotting_Functions.py:1188-1217 | the style dictionary has one key per distinct variant name |
| Styles.StyleMapLast | Plotting_Functions.py:1217 | a name repeated in the list keeps the style of its last position, because later writes overwrite earlier ones |
| Styles.AssignStyles | Plotting_Functions.py:1188-1217 | the index loop builds the style dictionary `StyleMap` |
| Styles.DefaultPass | Plotting_Functions.py:1138 | with twelve colours, a position is in one of the five marker passes exactly when it is below sixty |
| Styles.VariantColorCycler | Plotting_Functions.py:1120-1159 | fails exactly when there are more than sixty variants, with the index of the missing sixth marker; otherwise it gives each variant the style of its position (colour `i % 12`, marker `i // 12`) |
| Styles.ColorsOf | Plotting_Functions.py:1179-1180 | the colour list is never empty |
| Styles.MarkersOf | Plotting_Functions.py:1173-1176 | the marker list is empty exactly when an empty list was given, which then leaves room for no variant |
| Styles.ShapeCycler | Plotting_Functions.py:1173-1218 | fails exactly when the variants exceed `len(markers) * len(colors)`, with that error; otherwise it styles each variant by its position; an empty list gives an empty dictionary |
| Styles.ColorShapeCycler | Plotting_Functions.py:1161-1218 | `color_shape_cycler` as written, with the marker index `(i + i // C) % M`: the capacity check and the style of each position |
| Styles.ColorShapeCyclerCorrected | Plotting_Functions.py:1161-1218 | the same cycler with the marker index `(i % C + i // C) % M` |
| Styles.BlocksDistinct | Plotting_Functions.py:1136-1138 | one marker per pass gives every position its own (colour, marker) index pair |
| Styles.ShiftedPerPassDistinct | Plotting_Functions.py:1163 | the corrected index gives every position within the capacity its own pair, for any `C` and `M` |
| Styles.ShiftedDefaultsDistinct | Plotting_Functions.py:1163 | with 12 colours and 5 markers the index as written gives the sixty positions distinct pairs |
| Styles.ShiftedCollision | Plotting_Functions.py:1193-1194 | with 2 colours and 3 markers the index as written gives positions 0 and 2 the same pair, so `a` and `c` of `[a, b, c]` get the same style |
| Styles.StylesDistinct | Plotting_Functions.py:1188-1217 | distinct names, colours and markers, together with distinct index pairs, give distinct variants distinct styles |
| Styles.DistinctStylesGuaranteed | Plotting_Functions.py:1163 | the promise of unique colour-shape combinations holds for the corrected cycler and the fixed-size one for any lists without repeats, and for the cycler as written with twelve colours and five markers |
| Paging.FloorDiv | Plotting_Functions.py:1060-1061 | Python's `//` together with `%` satisfies `a == (a // b) * b + a % b` |
| Paging.FloorMod | Plotting_Functions.py:1060-1061 | Python's `%` lies in `[0, b)` for a positive divisor and in `(b, 0]` for a negative one |
| Paging.PageCount | Plotting_Functions.py:1060-1062 | a negative page size counts no pages; a positive one counts none exactly for empty data |
| Paging.Chunks | Plotting_Functions.py:1065-1073 | no chunks exactly for no data; every chunk holds between one row and a full page, and all but the last are full |
| Paging.ChunksFlatten | Plotting_Functions.py:1065-1073 | the chunks put back together are the data |
| Paging.ChunkCount | Plotting_Functions.py:1060-1062 | there are as many chunks as the page count |
| Paging.ChunkAt | Plotting_Functions.py:1067-1068 | chunk `k` is the run of the data starting `k` full pages in, and the last chunk ends with the data |
| Paging.PageSlice | Plotting_Functions.py:1067-1073 | the slice `[n*(page-1) : n*page]`, or `[n*(page-1):]` on the last page, is chunk `page - 1` |
| Paging.Outfile | Plotting_Functions.py:1077-1080 | a file path exactly when the prefix is truthy |
| Paging.Pages | Plotting_Functions.py:1026-1107 | a zero page size is an error; a default title with rows to show is an error; a negative size or no rows draws no pages; otherwise there are as many pages as the page count |
| Paging.MultiPageHeatmap | Plotting_Functions.py:1060-1080 | the page loop with its `lower`/`upper` slices and the `None` title check agrees with `Pages` |
| Paging.CountPages | Plotting_Functions.py:1060-1062 | the quotient, plus one for a remainder, is the page count |
| Paging.BuildPage | Plotting_Functions.py:1067-1080 | page `page` has its slice, its title with `<page>` replaced and its output path, as in `Pages` |
| Paging.PagesCover | Plotting_Functions.py:1065-1073 | the pages are numbered from 1, hold every row once and in order, are full except the last, and the last is non-empty |
| Paging.PagesRows | Plotting_Functions.py:1065-1073 | page `k + 1` shows chunk `k` |
| Paging.PagesTitles | Plotting_Functions.py:1075-1080 | drawing pages means a title was given; page `k + 1` has the title with every `<page>` replaced by its page label, so a title without `<page>` is the same on every page; a truthy prefix gives page `k + 1` the file `prefix_{k+1}_of_{pages}.png`, and a falsy one gives no file |
| Dates.StartsUpToMembers | Plotting_Functions.py:1389-1400 | an index below `n` is collected exactly when it starts a year |
| Dates.StartsUpToIncreasing | Plotting_Functions.py:1389-1400 | the collected indices increase strictly |
| Dates.YearStarts | Plotting_Functions.py:1387-1400 | the year indices start with 0 and increase strictly |
| Dates.YearStartsMembers | Plotting_Functions.py:1387-1400 | an index is among the year indices exactly when it is 0 or its year differs from the one before |
| Dates.YearConstantBetween | Plotting_Functions.py:1387-1400 | from one collected index up to the next, or to the end, every week has the same year |
| Dates.YearChangeIndices | Plotting_Functions.py:1387-1400 | the loop over the end dates, which keeps the running `year_before`, collects exactly `YearStarts` |
| Dates.LabelsUpTo | Plotting_Functions.py:1402-1427 | one label per week |
| Dates.YearFirstLabels | Plotting_Functions.py:1384-1427 | fails exactly when some week needs an end date it does not have, whether for a range or for a year; the error is the index just past the end dates; on success there is one label per start date |
| Dates.LabelsUpToAt | Plotting_Functions.py:1402-1427 | label `i` is `"{year}: "` plus the body exactly when week `i` starts a year, and the body alone otherwise |
| Dates.DateLabel | Plotting_Functions.py:1403-1427 | the branches of one label: none exactly when it needs a missing end date, otherwise `Label(i)` |
| Dates.DatesForGraphFirst | Plotting_Functions.py:1384-1427 | the index loop followed by the label loop gives `YearFirstLabels` |
| Combos.ReferenceClusterNeither | Plotting_Functions.py:1272-1304 | the reference cluster, whose missing `Variants` is filled with a space, falls in the neither cell for any two codes other than the empty one and the space |
| Combos.CellOf | Plotting_Functions.py:1284-1304 | every row falls in exactly one of the four cells |
| Combos.InCell | Plotting_Functions.py:1284-1304 | the four row filters: each tests `var_A in x` and `var_B in x` on the filled `Variants` text |
| Combos.CellTotal | Plotting_Functions.py:1285-1305 | the sum of `Cluster_Size` over a cell's rows; with non-negative sizes it lies between 0 and the total size |
| Combos.CellsPartition | Plotting_Functions.py:1307 | the four cell totals add up to the total `Cluster_Size` |
| Combos.MarginTotals | Plotting_Functions.py:1279-1280 | both-cell plus only-A is the total with A, and both-cell plus only-B is the total with B |
| Combos.SwapVariants | Plotting_Functions.py:1284-1304 | exchanging the variants keeps the both-cell and the neither-cell and swaps the one-sided cells |
| Combos.SameVariant | Plotting_Functions.py:1284-1292 | a variant compared with itself leaves both one-sided cells empty |
| Combos.EmptyFirstVariant | Plotting_Functions.py:1291-1304 | the empty code occurs in every text, so with it as A the B-not-A cell and the neither cell are empty |
| Combos.VariantCombos | Plotting_Functions.py:1310 | the row and column labels; a 2x2 table whose first cell is the both-total; the cells add up to the total; the first row is the total with A and the first column the total with B |
| Combos.VariantCombosTranspose | Plotting_Functions.py:1310 | exchanging the variants transposes the table's numbers |
| Axes.LinearYMax | Plotting_Functions.py:1535-1545 | a multiple of 500 and at least 7500; 7500 when there is no maximum or it is at most 7500; otherwise the least multiple of 500 that is at least the maximum plus 250 |
| Axes.LinearYMaxMonotone | Plotting_Functions.py:1535-1545 | a larger maximum never gives a lower limit |
| Axes.YLimit | Plotting_Functions.py:1485-1547 | a truthy `y_max` with a log axis is an error, a negative `remove_end` is the next error; a log axis has its limit left to floating point; a truthy `y_max` is used as given; otherwise the limit is `LinearYMax` of the largest count |
| Text.LeadingSpaces | Plotting_Functions.py:127 | the whitespace run at the front of a string |
| Text.TrailingStart | Plotting_Functions.py:127 | where the whitespace run at the end of a string starts |
| Text.Strip | Plotting_Functions.py:127 | the slice of the input that neither starts nor ends with whitespace, everything cut on either side being whitespace |
| Text.StripUnchanged | Plotting_Functions.py:127 | a string that neither starts nor ends with whitespace is left alone |
| Text.Lower | Plotting_Functions.py:275 | the same length, each letter lowered |
| Text.LowerConcat | Plotting_Functions.py:275 | lowering distributes over concatenation |
| Text.FirstIndex | Plotting_Functions.py:129 | the first occurrence of the separator |
| Text.Split | Plotting_Functions.py:129 | at least one field, none of them holding the separator |
| Text.SplitJoin | Plotting_Functions.py:129 | splitting fields joined by a separator they do not contain gives back the fields |
| Text.JoinSplit | Plotting_Functions.py:129 | joining the fields of a split gives back the string |
| Text.ShowInt | Plotting_Functions.py:1075 | `str(n)` is non-empty, does not start with whitespace, ends in a digit and holds no comma |
| Text.ParseInt | Plotting_Functions.py:89-90 | `int()` accepts only a stripped text ending in a digit |
| Text.ParseShowInt | Plotting_Functions.py:89-90 | `int(str(n)) == n` |
| Text.Contains | Plotting_Functions.py:1284 | `sub in s`; a contained string is no longer than the text |
| Text.ContainsAt | Plotting_Functions.py:1284 | `sub in s` holds exactly when `sub` occurs at some offset of `s` |
| Text.ReplaceAll | Plotting_Functions.py:1075 | `str.replace`, left to right without overlaps; a text without the pattern is unchanged (`Text.ReplaceAbsent`) |
| Text.ReplaceAbsent | Plotting_Functions.py:1075 | `replace` leaves a string without the pattern unchanged |

## Left out

- File reading and writing (`open`, `pd.read_csv`, `to_csv`) are not modelled. Each reader takes the lines or rows it would have read.
- All matplotlib drawing is left out: `line_plot`, `TS_Heatmap`, `top_n_TS_graph`, `plot_top_ten` and the plotting part of `plot_n_seq`.
- The console prompt of `confirm_output` is left out.
- The verbose printing of `variant_combos` is left out; its check is `Combos.CellsPartition`.
- Nothing computed in floating point is modelled:
  - the percentages of `aggregate_codes`;
  - the colour-bar scaling of `multi_page_heatmap`;
  - the log10 limit of `plot_n_seq` (`Axes.YLimit` returns `None` there);
  - the mean-based sort of the continents.
- Table values (prevalences) are `real` and the model never computes with them.
- `strftime` is not modelled. A date is a `Dates.Stamp` carrying its year, its `%Y` text and its day-month text.
- Only `year="first"` of `dates_for_graph` is modelled. The `year=None`, `year="all"` and `format_override` branches only format dates.
- The file-name heuristics that derive a protein name from a path are left out, as is `drop("Worldwide")` in `plot_n_seq`.
- `aggregate_TS`, `aggregate_codes`, `add_region_column` and `initialize_n_by_continent` are pandas composition of the modelled steps and are not modelled.
- `var_uniq_by_domain` (defined twice and never called) is not modelled.
- The `type(...) != list` and `type(...) != dict` checks are not modelled, because the Dafny types already rule those inputs out.
- `Text.Strip`: whitespace is the one-byte set that `str.isspace` accepts. Other Unicode spaces are not stripped.
- `Text.Lower`: lowers ASCII letters only.
- `Text.ParseInt`: accepts the ASCII forms of `int()` (sign, digits, single underscores, surrounding whitespace). Unicode digits are not accepted.
- `Tables.AddDashes`: the source assigns the new column into the caller's frame and returns that same frame. The model returns a new frame; both callers rebind their variable to the result, so only the aliasing is not captured.
- `Tables.JoinPositions`: the source's `fillna(value="-")` also turns missing week values into `-`. The model's week values are never missing.
- `Tables.Select`: a missing column is reported by its first missing name, while pandas' `KeyError` lists all of them.
- `Tables.Select`: a frame with duplicate column labels picks the first column of each name, while pandas would return them all.
- `Tables.TopN`: states the order only up to ties (non-increasing, each kept entry ranked at least as high as every dropped one). `sort_values` defines no tie order.
- `Labels.LongTypes`: the error carries the offending code. The source's message is a fixed text.
- `Styles.StyleMap`: the model's dictionary has no insertion order. The source's dict iterates in insertion order.

## Findings

| source | as written | input that shows it | evidently intended | confidence | as-written member | corrected member |
|---|---|---|---|---|---|---|
| Plotting_Functions.py:1193-1194 | the marker index is `(i + i // C) % M`, which repeats a (colour, marker) pair whenever `C + 1` and `M` share a factor, although the docstring (line 1163) promises unique combinations for up to `C * M` variants | `color_shape_cycler(["a", "b", "c"], color_list=["red", "blue"], marker_list=["o", "D", "p"])`: `a` and `c` both get `red`, `o` | shift the marker cycle by one per pass with `(i % C + i // C) % M`, which gives every variant within the capacity its own pair | not executed | Styles.ShiftedCollision | Styles.ShiftedPerPassDistinct |
