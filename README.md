# LTS data manager: the entry store, in Dafny

The LTS data manager tracks long-term-storage entries — rows of
(Directory, Project, Notes) — in one CSV file per storage location. There are
four storage locations, `data1`, `data3`, `data4` and `rc2`, mapped to
`lts_data1.csv`, `lts_data3.csv`, `lts_data4.csv` and `lts_rc2.csv`. This
project models the entry store's in-memory table handling. It covers `add`
(duplicate check and confirmation, then append), `update` (exact-match masked
Notes write), `list` (storage and project filters) and `search` (any-column
match across all files).

Files:

- `text_match.dfy` (module `TextMatch`): the case-insensitive substring test
  used by `list -p` and `search`. It is a literal substring test after folding
  ASCII capitals. It is proved equal to the positional definition of a
  substring, and it is proved insensitive to case.
- `entry_tables.dfy` (module `EntryTables`): the data model.
  - `Entry` and `Table = seq<Entry>`.
  - `Files`, a map from storage name to `Option<Table>`, where `None` means
    the file does not exist.
  - The storage-name mapping.
  - The exact (Directory, Project) mask and the masked Notes write `SetNotes`.
  - The row filters and `Filter`.
  - `Collect`, the per-storage pass shared by `list` and `search`.
  - The specifications `Listed` and `Searched`, with the lemmas that state
    what they return.
- `entry_store.dfy` (module `EntryStore`): the class `LtsStore`, whose field
  `files` holds every storage's table. Its methods are the four commands:
  - `AddEntry` and `UpdateNotes` replace one storage's table; this models
    rewriting the file.
  - `ListEntries` and `SearchAll` are loops over the storages in mapping
    order. Each is proved equal to its specification function.
  - The confirmation prompt of `add` becomes the parameter `answer`.

Matching is deliberately asymmetric, as in the source. The duplicate test of
`add` and the mask of `update` compare Directory and Project exactly,
case-sensitively. The filters of `list` and `search` ignore case.
`ExactVersusCaseInsensitive` pins this down on one row.

## Model

| member | source | states |
|---|---|---|
| `EntryTables.FileName` | lts_manager.py:12-17 | the mapping knows exactly the four storage names, and maps each `s` to `lts_<s>.csv` |
| `EntryTables.StorageNamesDistinct` | lts_manager.py:12-17 | no storage name occurs twice in the mapping order |
| `EntryStore.LtsStore.AddEntry` | lts_manager.py:41-74 | succeeds iff the storage is known and either no row has exactly this (Directory, Project) or the answer confirms. On success the stored table (empty if the file was missing) gets exactly the row (directory, project, notes or `''`) appended at the end, and no other storage changes. On failure nothing changes. Without a duplicate the answer is never consulted |
| `EntryStore.AffirmativeAnswers` | lts_manager.py:58-59 | the confirmation accepts exactly the answers `y` and `Y` |
| `EntryStore.LtsStore.UpdateNotes` | lts_manager.py:76-103 | fails, changing nothing, for an unknown storage, a missing file, or no exact (Directory, Project) match. Otherwise the storage's table becomes `SetNotes` of it and no other storage changes |
| `EntryTables.SetNotes` | lts_manager.py:91-98 | same length. Every row keeps its Directory and Project. Every exactly matching row (duplicates included) gets the new Notes. Every other row is unchanged |
| `EntryTables.SetNotesIdempotent` | lts_manager.py:98 | writing the same notes twice gives the same table as writing them once |
| `EntryTables.SetNotesKeepsMatches` | lts_manager.py:91-98 | the table has an exact match after the write iff it had one before |
| `EntryTables.Filter` | lts_manager.py:32 | the filtered table is no longer than the input, and each of its rows passes the filter |
| `EntryTables.FilterCounts` | lts_manager.py:32 | each passing row occurs in the filtered table as often as in the input, and no failing row occurs in it |
| `EntryTables.FilterIsSubsequence` | lts_manager.py:32 | the filtered table keeps the rows in their original order |
| `EntryTables.FilterAllRows` | lts_manager.py:30-32 | without a project filter the table is kept whole |
| `EntryTables.FilterAppend` | lts_manager.py:69 | filtering a table with one row appended gives the filtered table, plus that row at the end if it passes |
| `EntryTables.FilterNonEmpty` | lts_manager.py:115-118 | the filtered table is non-empty iff some row of the input passes |
| `EntryTables.CollectAppend` | lts_manager.py:23-37 | visiting one more storage appends exactly its contribution to the results |
| `EntryTables.CollectSound` | lts_manager.py:23-37 | every result pair names a visited, wanted storage whose file exists, and holds exactly that file's passing rows, at least one of them |
| `EntryTables.CollectComplete` | lts_manager.py:23-37 | every wanted storage whose file exists and has a passing row appears in the results with its passing rows |
| `EntryTables.CollectInOrder` | lts_manager.py:23 | the storages appear in the results in visiting order |
| `EntryTables.CollectOnly` | lts_manager.py:24-25 | a non-empty storage filter leaves only that storage's contribution |
| `EntryStore.LtsStore.ListEntries` | lts_manager.py:19-39 | the loop over the mapping returns exactly `Listed` of the store |
| `EntryTables.ListedSound` | lts_manager.py:23-37 | every listed pair is a wanted storage whose file exists. Its table is non-empty and an order-preserving selection of the stored rows. Under a project filter, every kept row's Project contains the filter, ignoring case. Storages appear in mapping order |
| `EntryTables.ListedComplete` | lts_manager.py:23-37 | every row of a wanted, existing storage whose Project matches the filter is listed under that storage |
| `EntryTables.ListAfterAppend` | lts_manager.py:63-69 | after one row is appended to a storage (missing file counts as empty), listing that storage with a filter the row passes gives the earlier listing plus exactly that row at the end |
| `EntryTables.ExactVersusCaseInsensitive` | lts_manager.py:56 | a row for `Proj1` is no duplicate of `proj1`, yet a project filter `proj1` keeps it |
| `EntryStore.LtsStore.SearchAll` | lts_manager.py:105-124 | the loop returns exactly `Searched` of the store, and `found` holds iff some row of some existing file has a column containing the term, ignoring case |
| `EntryTables.SearchedEmptyIff` | lts_manager.py:108-124 | no search results (the "no matches" notice) iff no row of any existing file has a matching column |
| `TextMatch.Lower` | lts_manager.py:59 | lower-casing keeps the length and folds each character independently |
| `TextMatch.ContainsIffOccurs` | lts_manager.py:32 | the substring test holds iff the term occurs at some position |
| `TextMatch.CaseDoesNotMatter` | lts_manager.py:115 | folding the case of the text or of the term does not change whether they match |

## Left out

- CSV reading and writing, the file-existence test, and the Excel export
  (`export_to_excel`) are left out. They are file I/O through foreign
  libraries. A file's presence and content are modelled only as
  `Option<Table>`, and rewriting a file is modelled as replacing its table.
- Printed output is left out. `list` and `search` return the pairs they would
  print, and `search` also returns its `found` flag.
- The interactive prompt of `add` is replaced by the parameter `answer`.
- The command-line dispatch in `main` is left out. Its argument parser
  already rejects unknown storages for `add` and `update`. The functions'
  own checks are still modelled.
- `TextMatch.ContainsIgnoreCase`: the dataframe library's `str.contains`
  treats the term as a regular expression and folds Unicode case. The model
  uses a literal substring and folds only ASCII `A`-`Z`. So terms with
  regular-expression metacharacters (including ones the library rejects as
  invalid patterns) and non-ASCII case pairs are not modelled.
- `EntryStore.Affirmative`: Python's `str.lower` folds Unicode case. The
  model folds ASCII only, which gives the same accepted answers (`y`, `Y`).
- The library's missing-value handling is not modelled: empty Notes read
  back as NaN, `astype(str)` shows them as `nan`, and `na=False` excludes
  them from the project filter. Every cell is modelled as a string.
- Concurrent invocations racing on the same file are not modelled. Neither
  is a crash between reading and rewriting a file.
