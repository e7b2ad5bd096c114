# ZIP → Providers service, modelled in Dafny

The service answers "which providers serve ZIP code X". At start-up it loads
two things into memory:

- a provider directory that maps provider ids to display names;
- a ZIP index that maps each zero-padded ZIP to the provider ids serving it,
  plus a ZIP → county-names map.

It then answers `/api/providers/by-zip` and `/health` from those maps. This
project models that core:

- **Header cleaning** (`Text`, `Tables`). Every CSV header keeps only code
  points 32..126. It is then stripped with Python's `str.strip()` rule,
  lower-cased, and its spaces become underscores. Tables are modelled after
  parsing: a header row plus rows of present or missing cells.
- **Provider directory** (`Directory`, `Dicts`). It requires a
  `provider_id` column and picks the name column first-match from a fixed
  list. Rows whose id or name is missing are dropped, then exact duplicate
  pairs, then rows whose id is not numeric. Names are stripped, and the map
  is built with later pairs overwriting earlier ones.
- **ZIP index** (`ZipIndex`). The long-format file is grouped by ZIP. Each
  group's distinct ids are sorted, and each group is stored under
  `zfill(5)` of its ZIP (`Text.ZFill` keeps a leading sign in front).
- **County-merge source** (`ZipIndex.CountyMerge`). In this revision it
  always yields nothing.
- **Service state and loaders** (`Service`). A class holds the three maps:
  - the directory loader resets the directory before filling it;
  - the orchestrator takes the direct index when it is non-empty, then the
    merge result when that is non-empty, and otherwise keeps the maps as
    they were.
- **Read side** (`Lookup`). The lookup pads the ZIP, defaults to empty lists
  and returns distinct ascending ids. Names are attached with an
  "Unknown provider" placeholder. The two response bodies are built here.

Files, clocks and the web framework are not modelled. Whether a file exists is
a boolean parameter, and a file's content is a `Tables.Table` parameter.

Some behaviour of the code is easy to misread; the model follows the code as written:

- A ZIP longer than five characters is returned unchanged; it is not truncated.
- When both ZIP sources are empty, the orchestrator keeps the maps it had. At
  start-up these are the initial empty maps.
- The county map is never filled by either source in this revision.
- The response's `source` echoes the query parameter (default `"unique"`). It
  does not name the load path that produced the data.
- A directory entry is not always the name on the last row with its id.
  Exact duplicate (id, name) pairs are dropped first, keeping the first
  occurrence, and only then does the later pair win. The name that wins is
  that of the last qualifying row whose two cells repeat no earlier row; a
  later row with the same id that repeats an earlier row's cells does not
  change it. Rows (1,A), (1,B), (1,A) give 1 → B
  (`Directory.DirectoryLastRowWins`,
  `Directory.DuplicatesDroppedBeforeLastWins`).

## Model

| member | source | states |
|---|---|---|
| `Text.KeepPrintable` | app.py:37 | the result is no longer than the input and holds only code points 32..126; `KeepPrintableMembers`, `KeepPrintableConcat` and `KeepPrintableChar` fix which characters are kept and in what order |
| `Text.KeepPrintableMembers` | app.py:37 | the filter keeps exactly the printable characters of its input |
| `Text.KeepPrintableConcat` | app.py:37 | filtering a concatenation is concatenating the filtered parts, so the kept characters stay in their order |
| `Text.KeepPrintableChar` | app.py:37 | a single character is kept exactly when its code point is in 32..126 |
| `Text.KeepPrintableUnchanged` | app.py:37 | the filter leaves a fully printable string unchanged |
| `Text.IsSpace` | app.py:38 | Python's `str.isspace()` set (space, tab through carriage return, 28–31, U+0085, U+00A0, U+1680, U+2000–U+200A, U+2028, U+2029, U+202F, U+205F, U+3000); what `strip()` removes at app.py:38 and app.py:67, as `TrimStart`, `TrimEnd` and `StripIsSlice` state |
| `Text.TrimStart` | app.py:38 | the result is a suffix of the input, everything removed is whitespace, and it does not start with whitespace |
| `Text.TrimEnd` | app.py:38 | the result is a prefix of the input, everything removed is whitespace, and it does not end with whitespace |
| `Text.Strip` | app.py:38 | `str.strip()`: neither end of the result is whitespace; its characters come from the input; an input without whitespace ends is unchanged; an all-whitespace input becomes empty; `StripIsSlice` shows it is the contiguous middle slice |
| `Text.StripIsSlice` | app.py:38 | the strip of a string is its contiguous middle slice, and everything removed before and after it is whitespace |
| `Text.StripKeepsUnpadded` | app.py:38 | a string whose first and last characters are not whitespace is unchanged by `strip()` |
| `Text.Lower` | app.py:38 | same length; each character is lower-cased (A-Z to a-z) and every other character is kept |
| `Text.ReplaceSpaces` | app.py:38 | same length; each space becomes `_` and every other character is kept |
| `Text.StripKeepsPrintable` | app.py:37-38 | stripping a printable string leaves it printable |
| `Text.LowerReplaceCanonical` | app.py:38 | lower-casing and then replacing spaces turn printable characters into canonical ones |
| `Text.Clean` | app.py:34-38 | a cleaned header is no longer than the raw one and holds only printable ASCII, no space and no upper-case letter |
| `Text.CanonicalUnchanged` | app.py:38 | lower-casing and replacing spaces leave canonical characters unchanged |
| `Text.CleanCanonical` | app.py:34-38 | a header made only of canonical characters is its own cleaned form |
| `Text.CleanIdempotent` | app.py:34-38 | cleaning is idempotent |
| `Text.CleanProviderIdSpellings` | app.py:34-38 | "provider_id", "Provider ID" and " PROVIDER_ID " all clean to "provider_id" |
| `Text.ZFill` | app.py:92 | `str.zfill(w)`: a string of length at least w is unchanged; a shorter one becomes length w with zeros on the left, after a leading sign if there is one |
| `Text.ZFillIdempotent` | app.py:133 | padding a padded ZIP changes nothing |
| `Text.LeadingZerosValue` | app.py:65 | leading zeros do not change the decimal value of a digit string |
| `Tables.NormalizeColumns` | app.py:33-41 | every header is replaced by its cleaned form, in place and in order |
| `Tables.NormalizeColumnsIdempotent` | app.py:33-41 | normalising normalised headers changes nothing |
| `Tables.ColumnIndex` | app.py:54 | absent exactly when the name is not a column; otherwise the first position holding it |
| `Tables.Cell` | app.py:64 | missing when the column is absent; when it is present, the row's cell in the first column of that name, or missing if the row is shorter |
| `Tables.RowId` | app.py:65-66 | a row has an id exactly when its `provider_id` cell is present and is a non-empty digit string, and the id is that string's decimal value |
| `Ids.ParseId` | app.py:65 | a cell parses exactly when it is a non-empty digit string, and then to its decimal value; otherwise the coercion makes it missing |
| `Ids.ParseIdIgnoresLeadingZeros` | app.py:65 | leading zeros do not change which id a non-empty cell denotes: "007" and "7" are both id 7 |
| `Ids.Insert` | app.py:90 | inserting into a strictly ascending list keeps it strictly ascending and adds exactly that element |
| `Ids.SortedDistinct` | app.py:137 | `sorted(set(xs))` is strictly ascending and holds exactly the elements of `xs` |
| `Ids.HeadIsLeast` | app.py:137 | the head of a strictly ascending list is its least element |
| `Ids.AscendingUnique` | app.py:137 | two strictly ascending lists with the same elements are equal |
| `Ids.SortedDistinctOfAscending` | app.py:137 | `sorted(set(xs))` returns a strictly ascending list unchanged |
| `Ids.SortedDistinctOfSameValues` | app.py:137 | `sorted(set(xs))` depends only on which values `xs` holds |
| `Dicts.LastWins` | app.py:67 | after building the dict, the last pair's key maps to the last pair's value |
| `Dicts.LastWinsKeys` | app.py:67 | the dict has a key exactly when some pair assigns it |
| `Dicts.LastWinsTakesLast` | app.py:67 | a pair that no later pair overrides gives its key's value |
| `Dicts.LastWinsValue` | app.py:67 | each value comes from the last pair that assigns its key |
| `Dicts.LastWinsAppend` | app.py:67 | one more pair updates the dict built from the earlier pairs at that pair's key only |
| `Directory.FirstPresent` | app.py:56-63 | no candidate is chosen exactly when none is a column; a chosen one is both a column and a candidate |
| `Directory.FirstPresentAt` | app.py:56-61 | the first candidate present wins |
| `Directory.NameColumn` | app.py:56-63 | the loop tries `holding_company` first, then the fallbacks in order, and breaks on the first column present; the result is the first candidate present |
| `Directory.PresentPairs` | app.py:64 | `dropna`: the kept pairs are exactly the (id, name) cells of rows where both are present |
| `Directory.Dedup` | app.py:64 | `drop_duplicates`: the same elements as the input, each exactly once |
| `Directory.DedupOfDistinct` | app.py:64 | a list without repeats is its own deduplication |
| `Directory.NumericIds` | app.py:65-66 | the kept pairs are exactly those whose id parses, with the id replaced by its integer |
| `Directory.StripNames` | app.py:67 | each name is replaced by its stripped form and each id is kept |
| `Directory.NumericPairs` | app.py:64-66 | the (id, name) pairs that reach the dict-building step; `RowReachesPairs` and `PairFromRow` state that they are exactly the pairs of rows with a present numeric id and a present name |
| `Directory.DirectoryOf` | app.py:64-67 | the directory built from one name column; `DirectoryContents` ties its keys and values to the rows in both directions and `DirectoryLastRowWins` says which row's name wins |
| `Directory.ReadDirectory` | app.py:51-67 | reading fails exactly when `provider_id` is missing or no name column is present, and the error says which |
| `Directory.RowReachesPairs` | app.py:64-66 | every row with a numeric id and a present name reaches the dict-building step |
| `Directory.PairFromRow` | app.py:64-66 | every pair at the dict-building step comes from a row with that id and that name |
| `Directory.StrippedKeys` | app.py:67 | every id of a pair gets an entry |
| `Directory.StrippedEntry` | app.py:67 | every entry is the stripped name of a pair with its id |
| `Directory.ReadDirectoryChosen` | app.py:51-67 | with `provider_id` present and the first name column chosen, the read succeeds with the directory of that column |
| `Directory.LoadDirectory` | app.py:47-67 | nothing without the file; otherwise the cleaned headers, the required id column and the name-column loop give the directory `ReadDirectory` describes, and every failure gives the empty directory |
| `Directory.ReadDirectoryOf` | app.py:56-67 | a read succeeds exactly when `provider_id` is a column and some name column is present, and then its result is the directory of the first name column present |
| `Directory.DirectoryHasRow` | app.py:64-67 | for any header row and name column, every row with a present numeric id and a present name puts its id in the directory |
| `Directory.DirectoryEntryFromRow` | app.py:64-67 | for any header row and name column, every entry is the stripped name of a row with that id and a present name |
| `Directory.DirectoryContents` | app.py:64-67 | every row with a present numeric id and a present name puts its id in the directory, and every entry is the stripped name of such a row with that id |
| `Directory.DedupAppend` | app.py:64 | `drop_duplicates` on one more pair appends it exactly when it is new |
| `Directory.NumericIdsAppend` | app.py:65-66 | the coercion on one more pair appends it, with its integer id, exactly when its id parses |
| `Directory.StripNamesAppend` | app.py:67 | stripping one more pair appends it with its name stripped |
| `Directory.PairsStep` | app.py:64-67 | after `dropna`, one more pair sets its id to its stripped name exactly when it is new and its id parses; otherwise the dict is unchanged |
| `Directory.PresentStep` | app.py:64 | `dropna` on one more row appends its pair exactly when both its cells are present |
| `Directory.PresentBefore` | app.py:64 | a row's pair was already kept exactly when an earlier row has the same two cells |
| `Directory.DirectoryStep` | app.py:64-67 | one more row sets its id to its stripped name when it qualifies and no earlier row has the same two cells; otherwise the directory is unchanged |
| `Directory.DirectoryStepSets` | app.py:64-67 | a new qualifying last row gives its id its stripped name |
| `Directory.DirectoryStepKeeps` | app.py:64-67 | one more row leaves the entry of every id other than its own as it was |
| `Directory.DirectoryStepRepeats` | app.py:64 | a row that repeats the two cells of an earlier row leaves the directory unchanged |
| `Directory.DirectoryLastRowWins` | app.py:64-67 | a qualifying row that repeats no earlier row's two cells decides its id's name (the stripped name of that row) when every later qualifying row with the same id repeats the two cells of some row before it |
| `Directory.DuplicatesDroppedBeforeLastWins` | app.py:64-67 | rows (1,A), (1,B), (1,A) give 1 → B, because duplicates are dropped before later pairs overwrite earlier ones |
| `ZipIndex.ZipIdPairs` | app.py:88-90 | the grouped pairs are exactly the (zip, id) of rows with a present ZIP and a numeric id |
| `ZipIndex.GroupKeys` | app.py:90 | the groups are exactly the ZIPs of the pairs, each once |
| `ZipIndex.IdsOf` | app.py:90 | a group's ids are exactly the ids paired with its ZIP |
| `ZipIndex.GroupIds` | app.py:90 | a group's id list is strictly ascending and holds exactly the ids paired with its ZIP |
| `ZipIndex.Assignments` | app.py:91-92 | one assignment per group, keyed by the padded ZIP |
| `ZipIndex.DirectIndex` | app.py:74-98 | a missing file or a missing `zip` column gives two empty maps; a missing `provider_id` column gives no providers; with the file and both columns the providers are the grouped map of the rows; the county map is always empty |
| `ZipIndex.LoadFromUnique` | app.py:74-98 | the loader's early returns and its loop over the groups produce exactly `DirectIndex` |
| `ZipIndex.Grouped` | app.py:88-92 | the ZIP index built from the rows; `GroupedShape` states each key is a padded ZIP of the file with exactly that ZIP's ids in ascending order, `GroupedComplete` that every contributing row's ZIP is a key, and `GroupedLookup` the lookup of a row's ZIP |
| `ZipIndex.GroupEntry` | app.py:91-92 | each entry is the id list of one group whose ZIP pads to the entry's key |
| `ZipIndex.PaddedKey` | app.py:92 | a padded key is its own padding and at least five characters long |
| `ZipIndex.GroupIdsOfRows` | app.py:90 | a group's id list holds exactly the ids of the rows with that ZIP |
| `ZipIndex.GroupedShape` | app.py:88-92 | every key is `zfill(5)` of a ZIP found in the file, is its own padding and has at least five characters; its value is strictly ascending and holds exactly the ids of the rows with that ZIP |
| `ZipIndex.GroupedComplete` | app.py:88-92 | every row with a present ZIP and a numeric id puts its padded ZIP in the index |
| `ZipIndex.GroupedLookup` | app.py:88-92 | if no two different ZIPs pad to the same key, a row's padded ZIP maps to exactly the ids of the rows with that ZIP |
| `ZipIndex.DirectIndexGrouped` | app.py:74-92 | a non-empty direct index comes from a present file with `zip` and `provider_id` columns, and is the grouped map of its rows |
| `ZipIndex.FillProviders` | app.py:91-92 | the loop over the groups builds the dict of their assignments, later ones overwriting earlier ones |
| `ZipIndex.CountyMerge` | app.py:102-114 | the county merge always returns two empty maps |
| `Lookup.StoredIds` | app.py:134 | `dict.get(z, [])`: the stored list of a known padded ZIP, the empty list otherwise |
| `Lookup.ProvidersForZip` | app.py:132-137 | the ids are strictly ascending and are exactly those stored under the padded ZIP; an unknown ZIP gives no ids and no counties |
| `Lookup.LookupReturnsStoredList` | app.py:132-137 | a stored strictly ascending list comes back exactly as stored |
| `Lookup.LookupIgnoresPadding` | app.py:133 | a ZIP and its padded form get the same answer |
| `Lookup.LookupFindsRows` | app.py:87-92 | if no two ZIPs collide when padded, looking up a row's ZIP returns exactly the ids of the rows with that ZIP |
| `Lookup.EntryIds` | app.py:142 | one id per entry, in order |
| `Lookup.NameOf` | app.py:142 | `id_to_name.get(id, "Unknown provider")`: the directory's name for a known id, the placeholder otherwise |
| `Lookup.AttachNames` | app.py:140-144 | one entry per distinct id, in ascending order; the name is the directory's when present, "Unknown provider" otherwise |
| `Lookup.AttachNamesKeepsIds` | app.py:140-144 | on distinct ascending ids, the entries carry the same ids in the same order |
| `Lookup.ByZip` | app.py:163-173 | `zip` is the padded query; `providers_count` equals the number of entries; the entries carry the lookup's ids in order, each with the directory's name or "Unknown provider"; `source` echoes the parameter, default "unique" |
| `Lookup.Health` | app.py:153-160 | `ok` is always true; `providers_loaded` holds exactly when the directory is non-empty; the counts are the sizes of the directory and of the ZIP index |
| `Service.DirectIndexWellFormed` | app.py:87-92 | every key of the direct index is its own padding, and every id list is strictly ascending |
| `Service.Service.constructor` | app.py:28-30 | all three maps start empty |
| `Service.Service.ValidLookup` | app.py:132-137 | on a service whose ZIP maps are well formed, looking up a stored ZIP returns the stored id list exactly, order included |
| `Service.Service.LoadProviderNames` | app.py:45-70 | the directory is what `ReadDirectory` reads when the file exists and the read succeeds, empty otherwise; the ZIP maps are unchanged |
| `Service.Service.LoadZipToProviders` | app.py:118-128 | both maps come from the direct index when it has providers; otherwise from the merge result when that has providers; otherwise they are unchanged; the directory is unchanged and well-formedness is kept |
| `Service.Service.Startup` | app.py:147-149 | after start-up the directory is as loaded; the ZIP maps are the direct index with no counties when it found any ZIP, and are unchanged otherwise |

## Left out

- Reading files, checking that they exist, and logging are I/O. A file's
  presence is a boolean parameter and its parsed content is a table
  parameter.
- The web framework is left out: the app, CORS, routing, and the mapping of
  an unexpected exception to a 500 response. The 3–10 character validation
  of `zip` is a precondition of `Lookup.ByZip`.
- pandas numeric coercion is not modelled beyond non-empty digit strings.
  That covers `"5.0"`, signs, spaces, float ids, `Int64` bounds, `int(p)`
  on floats, and the `isinstance` filter in the lookup, which keeps every
  id because ids are naturals. The provider list is read without `dtype=str`,
  so a numeric name would go through `str(n)`; names are taken as strings.
- Which cells pandas reads as missing (empty cells, `"NA"`, and so on) is
  decided by the table parameter. A `None` cell is a missing one.
- Directory.Dedup: duplicate rows are compared on the id text as it appears
  in the cell. The provider list is read without `dtype=str`, so when every
  id in the column is numeric pandas compares the parsed numbers instead.
  The two agree only when the column is read as text or every id is spelled
  canonically (no leading zeros, no `"7.0"`). For example, rows
  ("007", A), ("7", B), ("7", A) give 7 → B in pandas and 7 → A here.
  `Ids.ParseIdIgnoresLeadingZeros` shows that such spellings denote the same id.
- Duplicate cleaned column names: the model uses the first column with the
  name. pandas would select several columns.
- Tables.Cell: a row shorter than the header reads as missing cells, which
  is how the CSV reader pads short rows.
- `ZipIndex.GroupKeys` visits groups in first-appearance order. pandas
  visits them in sorted key order. The order only decides which group wins
  when two different raw ZIPs pad to the same key.
  - `ZipIndex.GroupedShape` holds for either order.
  - `ZipIndex.GroupedLookup` and `Lookup.LookupFindsRows` require that no such collision occurs.
- The county-merge join, and the wide-format `provider_ids` and county-name
  columns, do not exist in this revision of the code, so they are not part
  of the model. `ZipIndex.CountyMerge` always returns empty maps.
- Text.Lower: only ASCII letters are lower-cased. Header cleaning passes
  `lower()` only code points 32..126, so nothing else reaches it.
- Non-string column labels (`str(c)`) are left out. Headers are strings.
- Directory.DirectoryContents: states that each value is the stripped name of
  some qualifying row with that id, not which one. Which name wins is stated
  by `Directory.DirectoryLastRowWins` and illustrated by
  `Directory.DuplicatesDroppedBeforeLastWins`.
