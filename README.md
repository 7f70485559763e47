# MDRM explorer, modelled in Dafny

The Micro Data Reference Manual (MDRM) is the Federal Reserve's catalogue of
reporting items. Each item is identified by a four-letter mnemonic and a
four-character item code, for example `RCON2170`. This project models two
programs:

- the loader (`create_mdrm_database.py`). It reads the MDRM CSV export and
  cleans headers, dates and text. It builds the `MDRM_Identifier` column,
  renames the columns to the database's names and inserts every row into
  `mdrm_data`. It then fills the `mdrm_summary` table of statistics.
- the JSON endpoints of the web explorer (`mdrm_web_explorer.py`):
  - `search`: a LIKE match on one field, sorted, limited and projected;
  - `get_details`: a lookup by identifier, or a 404;
  - `get_stats`: the summary table plus the ten most frequent mnemonics.

The model is split into these modules:

| file | module | what it holds |
|---|---|---|
| `wrappers.dfy` | `Wrappers` | `Option` and `Result` |
| `text.dfy` | `Text` | Python's `strip`/`rstrip`/`replace`, decimal text of a count, SQLite's BINARY text order, SQLite's `LIKE` |
| `seqs.dfy` | `Seqs` | counting, distinct values, ordering and `LIMIT` over sequences: the SQL aggregates the programs use |
| `catalog.dfy` | `Catalog` | one row of `mdrm_data` (`Record`) |
| `normalize.dfy` | `Normalize` | `clean_csv_data`, on a data frame of named columns of cells |
| `summary.dfy` | `Summary` | `create_summary_stats` |
| `loader.dfy` | `Loader` | `create_database` and `main` |
| `explorer.dfy` | `Explorer` | the three endpoints |

How the model represents the programs:

- SQL `NULL` is `None`.
- A date is a day number (`Date = int`).
- The database is a value: the sequence of `mdrm_data` rows in insertion
  order, plus the sequence of `mdrm_summary` rows.
- Methods carry the loops of the source: the column conversion loops, the
  rename loop, the summary insert loops, the result projection loop and
  the statistics map loop. Each is proved equal to a specification
  function, and the properties are lemmas about that function.
- Two things outside the programs become parameters:
  - pandas' date parsing is `parse: string -> Option<Date>`;
  - the current date (`date('now')`) is `today`.

## Model

| member | source | states |
|---|---|---|
| Text.Strip | create_mdrm_database.py:34 | the result is a slice of the input with only whitespace cut at either end, and it neither starts nor ends with whitespace |
| Text.StripIdempotent | mdrm_web_explorer.py:32 | stripping a stripped string changes nothing |
| Text.RStripChar | create_mdrm_database.py:34 | `rstrip(',')` keeps a prefix, cuts only commas and leaves no trailing comma |
| Text.ReplaceChars | create_mdrm_database.py:47-48 | `replace` introduces no character that is absent from both the input and the replacement |
| Text.ReplaceAbsent | create_mdrm_database.py:47-48 | `replace` leaves a string without the pattern's first character unchanged |
| Text.StripSnocSpace | create_mdrm_database.py:49 | one more trailing whitespace character does not change what `strip` gives |
| Text.ReplaceSplit | create_mdrm_database.py:47-48 | when no occurrence of the pattern straddles the join, replacing in a concatenation replaces in each part |
| Text.ReplaceOccurrence | create_mdrm_database.py:47-48 | an occurrence of a pattern whose first character does not recur in it is replaced, and the text on each side is processed on its own |
| Text.ReplaceAroundChar | create_mdrm_database.py:47-48 | a character absent from the pattern is copied, and the text on each side is processed on its own |
| Text.ReplaceAroundMismatch | create_mdrm_database.py:47-48 | a text that starts like the pattern but departs from it at its second character is copied, and the text on each side is processed on its own |
| Text.NatToString | create_mdrm_database.py:183 | `str(count)` is non-empty, all digits, with no leading zero |
| Text.NatToStringRoundTrip | create_mdrm_database.py:183 | reading back the decimal text of a count gives the count |
| Text.NatToStringInjective | create_mdrm_database.py:196 | different counts give different texts |
| Text.TextLeqSelf | create_mdrm_database.py:175 | every text is ordered before or equal to itself |
| Text.TextLeqTotal | mdrm_web_explorer.py:56 | the BINARY text order is total |
| Text.TextLeqTransitive | mdrm_web_explorer.py:56 | the BINARY text order is transitive |
| Text.TextLeqAntisymmetric | mdrm_web_explorer.py:56 | two texts ordered both ways are equal |
| Text.TextLeq | mdrm_web_explorer.py:56 | a text sorts no later than every text it is a prefix of |
| Text.LongerSortsAfter | create_mdrm_database.py:175 | a text followed by more characters sorts after any other text of the original length exactly when that other text is not greater |
| Text.LikePrefix | mdrm_web_explorer.py:55-59 | for a query without wildcards, `q%` matches exactly the strings that start with `q`, ignoring ASCII case |
| Text.LikeAnything | mdrm_web_explorer.py:55-59 | `%` matches every string |
| Text.LikeContains | mdrm_web_explorer.py:55-59 | for a query without wildcards, `%q%` matches exactly the strings that contain `q`, ignoring ASCII case |
| Text.LikeFromPrefix | mdrm_web_explorer.py:55-59 | for any query, wildcards included, a string that starts with `q` ignoring ASCII case matches `q%` |
| Text.LikeFromContains | mdrm_web_explorer.py:55-59 | for any query, wildcards included, a string that contains `q` ignoring ASCII case matches `%q%` |
| Text.Like | mdrm_web_explorer.py:55 | a pattern without `%` matches only texts of its own length |
| Seqs.Count | create_mdrm_database.py:187-190 | an occurrence count is at most the length and is positive exactly when the value occurs |
| Seqs.Dedup | create_mdrm_database.py:170 | the distinct values: no repeats, and the same values as the input |
| Seqs.ElementsBound | create_mdrm_database.py:170-172 | `COUNT(DISTINCT x)` equals the number of deduplicated values and never exceeds the row count |
| Seqs.DistinctCardinality | create_mdrm_database.py:170 | a sequence without repeats has as many values as elements |
| Seqs.DedupCountsSum | create_mdrm_database.py:186-190 | the per-value counts of a GROUP BY add up to the number of rows |
| Seqs.SumCountsSnoc | create_mdrm_database.py:186-190 | one more row adds one to the total of the counts exactly when its value is a key |
| Seqs.DistinctMultiplicity | mdrm_web_explorer.py:134 | a sequence without repeats holds each value at most once |
| Seqs.DistinctPermutation | mdrm_web_explorer.py:134-135 | reordering a sequence without repeats keeps it without repeats |
| Seqs.InsertBy | mdrm_web_explorer.py:44 | inserting into a sorted sequence keeps it sorted and adds exactly that element |
| Seqs.SortBy | mdrm_web_explorer.py:44 | `ORDER BY`: the result is sorted and a permutation of the input |
| Seqs.Limit | mdrm_web_explorer.py:45 | `LIMIT n` keeps the first `min(n, length)` rows, and all rows when `n` is negative |
| Seqs.PrefixOfSortedIsLeast | mdrm_web_explorer.py:44-45 | after a sort, every row cut off by the limit is at least every row kept |
| Normalize.IndexOf | create_mdrm_database.py:39 | finds the first column with the name |
| Normalize.Set | create_mdrm_database.py:53 | assigning a column keeps the frame well formed, replaces the column or appends a new one, and the column then reads back as assigned |
| Normalize.SetOther | create_mdrm_database.py:53 | assigning one column leaves every other column as it was |
| Normalize.MapColumnsOther | create_mdrm_database.py:38-49 | converting a list of columns leaves the columns not in the list unchanged |
| Normalize.MapColumnsAt | create_mdrm_database.py:38-49 | each listed column that exists is converted cell by cell |
| Normalize.CleanHeader | create_mdrm_database.py:34 | a cleaned header is the stripped name without its trailing commas: no leading whitespace, no trailing comma |
| Normalize.CleanHeaderNotIdempotent | create_mdrm_database.py:34 | `"Mnemonic ,"` cleans to `"Mnemonic "`, and only a second cleaning gives `"Mnemonic"` |
| Normalize.CleanText | create_mdrm_database.py:47-49 | a cleaned text is the stripped decoding; it has no whitespace at either end, and a text without `&` is only stripped |
| Normalize.DecodedAmpFree | create_mdrm_database.py:47-48 | a text without `&` contains neither entity, so decoding leaves it unchanged |
| Normalize.DecodesCr | create_mdrm_database.py:47-48 | wherever `&#x0D;` occurs it decodes to a newline, and the text on each side decodes on its own |
| Normalize.DecodesAmp | create_mdrm_database.py:47-48 | wherever `&amp;` occurs it decodes to `&`, and the text on each side decodes on its own |
| Normalize.CleanTextTrailingCr | create_mdrm_database.py:47-49 | for every text, appending an encoded carriage return does not change what cleaning gives: the entity decodes to a newline, which the strip removes |
| Normalize.CleanTextInteriorCr | create_mdrm_database.py:47-49 | an encoded carriage return inside a value becomes a line break: `a&#x0D;b` cleans to `a`, newline, `b` |
| Normalize.CleanTextSinglePass | create_mdrm_database.py:47-48 | `&amp;#x0D;` decodes once to `&#x0D;`, which a second pass would remove |
| Normalize.MdrmIdentifier | create_mdrm_database.py:53 | the identifier is the mnemonic followed by the item code |
| Normalize.MdrmIdentifierExample | create_mdrm_database.py:53 | `RCON` and `2170` give `RCON2170` |
| Normalize.ParseCell | create_mdrm_database.py:41 | a converted date cell is a date or NULL (`errors='coerce'`) |
| Normalize.CleanCell | create_mdrm_database.py:47 | a cleaned text cell is always text, because `astype(str)` turns NULL into `"nan"` |
| Normalize.CleanedHasColumn | create_mdrm_database.py:33-53 | the cleaned frame has the cleaned headers' columns; it has `MDRM_Identifier` when the headers had it or had both `Mnemonic` and `Item Code` |
| Normalize.ColumnListsApart | create_mdrm_database.py:37-53 | the date, text and identifier columns are distinct, so each step leaves the others' columns alone |
| Normalize.CleanedDateColumn | create_mdrm_database.py:37-41 | a present date column is parsed cell by cell |
| Normalize.CleanedTextColumn | create_mdrm_database.py:44-49 | a present text column is cleaned cell by cell |
| Normalize.CleanedOtherColumn | create_mdrm_database.py:33-53 | any other column keeps its cells |
| Normalize.CleanedIdentifier | create_mdrm_database.py:52-53 | with both source columns present, each identifier cell joins that row's mnemonic and item code |
| Normalize.ConvertColumns | create_mdrm_database.py:38-49 | the conversion loop computes the column-by-column conversion and keeps names and height |
| Normalize.CleanCsvData | create_mdrm_database.py:19-55 | `clean_csv_data` keeps every row, its columns are exactly those above, and each column holds the converted cells |
| Normalize.Cleaned | create_mdrm_database.py:33-55 | the cleaned frame is well formed and keeps every row |
| Normalize.CleanedFacts | create_mdrm_database.py:19-55 | the same facts as `CleanCsvData`, stated about the specification function |
| Loader.RenameAll | create_mdrm_database.py:128-131 | renaming keeps the height, the column count and well-formedness |
| Loader.RenameAllColumns | create_mdrm_database.py:128-131 | each column gets the label the mapping gives it and keeps its cells |
| Loader.RenameColumns | create_mdrm_database.py:128-131 | the rename loop computes `RenameAll` |
| Loader.ColumnsMappingApart | create_mdrm_database.py:113-125 | no source name of the mapping is a target name, and no source or target repeats |
| Loader.SourcesDistinct | create_mdrm_database.py:113-125 | the mapping's source names are distinct |
| Loader.TargetsDistinct | create_mdrm_database.py:113-125 | the mapping's target names are distinct |
| Loader.RenamedNameOfOther | create_mdrm_database.py:129-131 | a label that is no source name is kept |
| Loader.RenamedNameOfSource | create_mdrm_database.py:129-131 | a source label becomes its target |
| Loader.RenamedHasTarget | create_mdrm_database.py:128-135 | after renaming, a target column exists exactly when its source or the target itself was present |
| Loader.RenamedSourceCells | create_mdrm_database.py:128-131 | when the frame has a CSV column but not yet its database column, the renamed database column holds exactly the CSV column's cells |
| Loader.Missing | create_mdrm_database.py:135 | the missing names are exactly the requested names with no column |
| Loader.SelectColumns | create_mdrm_database.py:134-135 | selection fails exactly when a requested column is missing, and names what is missing; otherwise it yields each requested column |
| Loader.Loaded | create_mdrm_database.py:128-147 | a successful load stores one record per row of the frame |
| Loader.CreateDatabase | create_mdrm_database.py:57-152 | `create_database` computes `Loaded`, and on success the record count is the number of rows |
| Loader.LoadFailsExactly | create_mdrm_database.py:128-135 | loading fails exactly when, for some mapped column, neither its source nor its target name is present |
| Loader.LoadKeepsEveryRow | create_mdrm_database.py:138-147 | a successful load has one record per row with ids 1..n, its summary is `SummaryRows` of those records, and `total_records` is the row count |
| Loader.SelectedSources | create_mdrm_database.py:128-135 | a successful load of a frame with none of the database names had every CSV column, and selects each one's cells under its database name |
| Loader.LoadStoresRow | create_mdrm_database.py:128-138 | record `i` holds id `i + 1` and row `i` of each of the eleven CSV columns, text as TEXT and dates as DATE, with missing cells as NULL |
| Loader.LoadStoresCsvRow | create_mdrm_database.py:33-138 | from the CSV as read: record `i` holds the identifier made from row `i`'s mnemonic and item code, the parsed dates, the three decoded and stripped text fields (a missing one as the text `nan`) and every other field as read |
| Loader.LoadNeedsIdentifier | create_mdrm_database.py:52-53 | a load succeeds only when the CSV carried an identifier column, or both `Mnemonic` and `Item Code` |
| Loader.RunLoader | create_mdrm_database.py:198-230 | exit status 0 exactly when the CSV exists and the load succeeds, and 1 otherwise; on success the database has one record per CSV row |
| Summary.PresentValues | create_mdrm_database.py:170-171 | the non-NULL values are exactly the values some row holds |
| Summary.NonEmptyValues | create_mdrm_database.py:172 | the non-NULL non-empty values are exactly the non-empty values some row holds |
| Summary.CountWhere | create_mdrm_database.py:173-176 | a `COUNT(*) ... WHERE` is at most the row count and positive exactly when some row satisfies the condition |
| Summary.CountWherePartition | create_mdrm_database.py:173-176 | three conditions of which each row satisfies exactly one have counts that add up to the row count |
| Summary.StatName | create_mdrm_database.py:168-177 | every fixed statistic name is non-empty and does not begin with `i`, so none can collide with an `item_type_` name |
| Summary.CountWhereSplit | create_mdrm_database.py:175-176 | a condition that holds exactly when one of two exclusive conditions holds counts the rows of both |
| Summary.EndDateOnSplits | create_mdrm_database.py:175-176 | `end_date >= day` holds exactly when `end_date > day` or `end_date = day`, and `end_date <= day` exactly when `end_date < day` or `end_date = day`, never both |
| Summary.AsWrittenShift | create_mdrm_database.py:175-176 | the as-written active count exceeds the intended one, and the expired count falls short of it, by exactly the items whose end date is today |
| Summary.SummaryRows | create_mdrm_database.py:154-196 | the summary has the eight fixed rows and one `item_type_` row per distinct non-empty item type |
| Summary.Lookup | mdrm_web_explorer.py:126-128 | a lookup finds a value exactly when the name is in the table, and the value found is a row's value |
| Summary.InsertThenLookup | create_mdrm_database.py:182-183 | after a successful insert the new name reads back its value and every other name reads back what it did before |
| Summary.StatNameInjective | create_mdrm_database.py:168-177 | the eight fixed names are distinct |
| Summary.FixedNameNotItemType | create_mdrm_database.py:168-196 | no fixed name equals any `item_type_` name |
| Summary.CreateSummaryStats | create_mdrm_database.py:154-196 | the insert loops never violate the PRIMARY KEY, and the table is the fixed rows followed by the item-type rows, with the intended active and expired counts (see Left out) |
| Summary.FreshName | create_mdrm_database.py:182-183 | in a table with distinct names, each row's name is absent from the rows before it |
| Summary.LookupDistinct | create_mdrm_database.py:161 | with distinct names, looking up a row's name gives that row's value |
| Summary.SummaryNamesDistinct | create_mdrm_database.py:161-196 | the summary's names are distinct, and it has 8 rows plus one per distinct non-empty item type |
| Summary.FixedStatLookup | create_mdrm_database.py:168-183 | each fixed statistic reads back as the decimal text of its intended count |
| Summary.ItemTypeCount | create_mdrm_database.py:186-190 | the GROUP BY count of a non-empty type equals `COUNT(*) WHERE item_type = type` |
| Summary.ItemTypeLookup | create_mdrm_database.py:186-196 | `item_type_T` is present exactly when `T` is non-empty and occurs, and it then holds `T`'s count |
| Summary.ItemTypePresent | create_mdrm_database.py:194-196 | an occurring non-empty type has its row with its count |
| Summary.ItemTypeAbsent | create_mdrm_database.py:189 | the empty type, or one that does not occur, has no row |
| Summary.SumGroupsIsSumCounts | create_mdrm_database.py:186-193 | the group counts add up to the per-key occurrence counts |
| Summary.ItemTypesLength | create_mdrm_database.py:189 | the rows with a non-empty item type are counted by `HasItemType` |
| Summary.ItemTypeGroupsSum | create_mdrm_database.py:186-193 | the item-type counts add up to the number of rows with a non-empty item type |
| Summary.ItemTypeGroupsExact | create_mdrm_database.py:186-193 | the groups are exactly the non-empty item types some row has, each once, each with the number of rows of that type |
| Summary.UniqueCountsBounded | create_mdrm_database.py:169-172 | no distinct count exceeds `total_records` |
| Summary.ConfidentialityPartition | create_mdrm_database.py:173-174 | confidential plus public plus the rows flagged neither `Y` nor `N` is the total |
| Summary.ConfidentialityExactlyOne | create_mdrm_database.py:173-174 | each row is confidential, public or neither, and exactly one of these |
| Summary.ActiveExpiredPartition | create_mdrm_database.py:175-176 | active plus expired plus the rows with a NULL end date is the total |
| Summary.EndDateExactlyOne | create_mdrm_database.py:175-176 | each row has an end date after today, one on or before today, or none, and exactly one of these |
| Summary.EmptyCatalogSummary | create_mdrm_database.py:168-196 | an empty catalogue has exactly the 8 fixed statistics, all `"0"` |
| Summary.StoredEndDateAfterSameDay | create_mdrm_database.py:175 | a stored `YYYY-MM-DD 00:00:00` end date compares greater than `date('now')` on the same day |
| Summary.ActiveOnEndDate | create_mdrm_database.py:175-176 | an item ending today counts as active and not expired as written, and as expired and not active when corrected |
| Summary.ActiveExpiredAsWrittenPartition | create_mdrm_database.py:175-176 | the as-written active and expired counts still partition the rows with an end date |
| Explorer.NullsFirstLeqFacts | mdrm_web_explorer.py:56 | `ORDER BY` on a nullable text (NULL first) is total, transitive and antisymmetric |
| Explorer.ItemNameOrder | mdrm_web_explorer.py:56 | `ORDER BY item_name` is a total preorder |
| Explorer.MnemonicItemNameOrder | mdrm_web_explorer.py:76 | `ORDER BY mnemonic, item_name` is a total preorder |
| Explorer.Where | mdrm_web_explorer.py:55 | the filtered rows are table rows that match, and every matching row is among them |
| Explorer.SearchArgDefaults | mdrm_web_explorer.py:32-34 | `q` defaults to empty and is stripped, `type` defaults to `item_name` and `limit` to 50 |
| Explorer.Ordered | mdrm_web_explorer.py:44-76 | the candidates sorted by the search's order, as a permutation |
| Explorer.SearchRows | mdrm_web_explorer.py:38-81 | the rows fetched are never more than the table, and never more than a non-negative `limit` |
| Explorer.SearchRowsShape | mdrm_web_explorer.py:38-79 | an empty query or a known type sorts its candidates and takes the first `limit` |
| Explorer.SearchBounds | mdrm_web_explorer.py:38-81 | at most `limit` rows when the limit is not negative, never more than the table; a non-empty query with an unknown type finds nothing |
| Explorer.SearchMembership | mdrm_web_explorer.py:50-79 | every row found is in the table and, for a non-empty query, matches `%query%` on the chosen field |
| Explorer.SearchOrdered | mdrm_web_explorer.py:44-76 | the rows come in the statement's `ORDER BY` order |
| Explorer.SearchTopRows | mdrm_web_explorer.py:44-45 | every candidate left out sorts no earlier than any row returned; with no cut every candidate is returned |
| Explorer.SearchFindsContaining | mdrm_web_explorer.py:55-59 | for every non-empty query, `%` and `_` included, a row whose field contains the query ignoring ASCII case is a candidate |
| Explorer.Search | mdrm_web_explorer.py:29-99 | the response has one entry per row the search fetches, in order, each that row's eight listed columns |
| Explorer.ProjectRows | mdrm_web_explorer.py:86-97 | the response loop appends, for each fetched row in order, the dictionary of its eight listed columns (`Project`) |
| Explorer.GetDetails | mdrm_web_explorer.py:101-117 | found exactly when some row has the identifier, and then it is that row; otherwise 404 with `Item not found` |
| Explorer.SummaryMap | mdrm_web_explorer.py:125-128 | the map's keys are exactly the summary's names |
| Explorer.SummaryMapDistinct | mdrm_web_explorer.py:125-128 | with distinct names each row's value is what the map holds for its name |
| Explorer.MnemonicGroupsExact | mdrm_web_explorer.py:131-134 | the groups are exactly the mnemonics some row has, NULL included, each once, each with the number of rows that carry it |
| Explorer.StatsReportFixed | mdrm_web_explorer.py:125-128 | after a load, `get_stats` reports each fixed statistic as the decimal text of its count |
| Explorer.ByCount | mdrm_web_explorer.py:135 | the groups sorted by count, descending, as a permutation |
| Explorer.TopMnemonics | mdrm_web_explorer.py:131-137 | at most ten groups are listed, each a group of the table |
| Explorer.TopMnemonicsSize | mdrm_web_explorer.py:131-137 | the top list has `min(10, number of distinct mnemonics)` entries |
| Explorer.TopMnemonicsCounts | mdrm_web_explorer.py:131-137 | each listed mnemonic occurs, with its exact count |
| Explorer.TopMnemonicsOrdered | mdrm_web_explorer.py:134-136 | counts never increase down the list and no mnemonic is listed twice |
| Explorer.TopMnemonicsLeast | mdrm_web_explorer.py:135-136 | no group left out has a larger count than any group listed |
| Explorer.GetStats | mdrm_web_explorer.py:119-142 | the keys are the summary names plus `top_mnemonics`; each summary name maps to its value; `top_mnemonics` holds the top list |

## Left out

- Reading the file: the CSV read, the header line skipped, the UTF-8 then
  Latin-1 fallback and pandas' type inference are left out. The model
  starts from a frame of named columns of text or NULL cells.
- Date parsing is the parameter `parse`. pandas' formats are not
  modelled. A date is stored as a day number, not as the text SQLite
  holds.
- Number formatting: a numeric column that pandas reads as floats
  (`2170` read as `2170.0`) is not modelled. Cells are text, so the
  identifier uses the text as read.
- Normalize.AsText: renders a date cell as a placeholder. The identifier
  columns `Mnemonic` and `Item Code` are never date columns.
- Duplicate column labels, for example two headers that clean to the same
  name, are not modelled. Lookups use the first column with a name.
- Database plumbing is not modelled: the database file removal
  (create_mdrm_database.py:63-65), the connection, the DDL, the eight
  indexes, `commit`, the `created_at` defaults and all console output.
- Loader.Loaded: a text cell in a date column is stored as NULL, where
  SQLite would keep the text. This happens when the CSV's header is
  already `start_date` or `end_date`: `clean_csv_data` parses only
  `Start Date` and `End Date`, and the rename leaves such a column as it is.
- Loader.LoadStoresRow: states the stored values only for a frame with
  none of the eleven database names, which is how the CSV names its
  columns. When a frame already has a database name, `RenameAll` and
  `SelectColumns` still decide what is stored, but no lemma spells it
  out. The same holds for `Loader.LoadStoresCsvRow`.
- Loader.RunLoader: `sys.exit(1)` is modelled as status 1. Exceptions
  other than a missing column (I/O, disk, encoding) are not modelled.
- Flask is not modelled: routing, `render_template`, the HTML template
  writer, JSON serialisation, the server start, `get_db_connection` and
  `create_templates`.
- `query_mdrm_database.py` is not part of this model.
- Explorer.Search: a `limit` that `int()` cannot parse raises an error.
  The model takes the parsed integer, so this case is left out.
- Explorer.Search: a `limit` beyond SQLite's 64-bit integer range makes
  the parameter binding raise `OverflowError`. The model has unbounded
  integers and returns every row.
- Text.Like: SQLite's LIKE folds ASCII letters only. It is modelled that
  way, with no `ESCAPE` clause and no Unicode case folding.
- Seqs.SortBy: SQL leaves the order of rows with equal keys unspecified.
  The model fixes one legal order: a stable sort in which an inserted row
  goes before an equal one. The ensures of `Explorer.Search` fixes the
  order of tied rows (equal `item_name`, equal `(mnemonic, item_name)`,
  several NULL or equal `start_date`) to that choice. The statements that
  hold for every tie order are `Explorer.SearchOrdered` and
  `Explorer.SearchTopRows`.
- Summary.ItemTypeGroups: lists groups in order of first appearance.
  `GROUP BY` leaves the order unspecified, so the order of the
  `item_type_` rows that `Summary.CreateSummaryStats` inserts is the
  model's choice. Their names and values do not depend on it.
- Explorer.MnemonicGroups: lists groups in order of first appearance.
  `GROUP BY` leaves the order unspecified. Together with the tie rule of
  `Seqs.SortBy`, this decides which of several mnemonics tied at the tenth
  count make the top list, and in what order tied mnemonics appear. The
  ensures of `Explorer.GetStats` pins that one legal choice. The
  statements that hold for every tie order are
  `Explorer.TopMnemonicsCounts`, `Explorer.TopMnemonicsOrdered` and
  `Explorer.TopMnemonicsLeast`.
- Explorer.GetDetails: returns the first row in table order with the
  identifier. SQLite's `fetchone` order is unspecified when identifiers
  repeat.
- A text stored in a DATE column, and SQLite's type affinity, are not
  modelled.
- Summary.CreateSummaryStats: stores the intended `active_items` and
  `expired_items` counts (`Summary.StatCount`), not the ones lines 175-176
  compute. An item whose end date is today is stored as expired, where
  the program stores it as active. `Summary.StatCountAsWritten` gives the
  program's counts and `Summary.AsWrittenShift` their exact difference
  (see Findings).
- Summary.SummaryRows: holds the intended counts, as above.
- Summary.FixedRows: holds the intended counts, as above.
- Summary.FixedStatLookup: reads back the intended counts, as above.
- Loader.Loaded: its summary holds the intended counts, as above.
- Loader.CreateDatabase: the database it returns stores the intended
  counts, as above.
- Loader.RunLoader: the database it produces stores the intended counts,
  as above.
- Explorer.StatsReportFixed: reports the intended counts, as above.

Two facts about the active and expired counts
(create_mdrm_database.py:175-176):

- `active_items + expired_items` is not `total_records`. A row with a NULL
  end date satisfies neither `end_date > date('now')` nor
  `end_date <= date('now')`. `Summary.ActiveExpiredPartition` therefore
  adds the NULL rows to the sum.
- An item is meant to be active while its end date is after today. The
  stored end date is a timestamp text, so the comparison with the date
  text of today also counts an item ending today as active. The model
  records this under Findings and stores the intended counts.

## Findings

| source | as written | input that shows it | evidently intended | confidence | as-written member | corrected member |
|---|---|---|---|---|---|---|
| create_mdrm_database.py:175-176 | `end_date > date('now')` compares the stored text `YYYY-MM-DD 00:00:00` with `YYYY-MM-DD`, so an item whose end date is today counts as active and not expired | an item whose end date is today's date | active means an end date strictly after today, and an item ending today is expired | medium, not executed (relies on pandas storing datetimes as `YYYY-MM-DD HH:MM:SS` text) | Summary.ActiveOnEndDate | Summary.StatCount |
