# gtfs_kit Feed container, modelled in Dafny

This project models the `Feed` class of gtfs_kit (`gtfs_kit/feed.py`) and the
input/output functions beside it, and proves properties of the model.

A feed holds:

- one optional table per GTFS table name (`agency`, `stops`, …, `feed_info`);
- the distance units;
- three derived structures: the trips table keyed by `trip_id`, the calendar
  keyed by `service_id`, and the calendar_dates rows grouped by
  `(service_id, date)`.

Assigning `trips`, `calendar` or `calendar_dates` rebuilds that table's derived
structure. Nothing else rebuilds it, so a table changed in place keeps a stale
index.

The project has these modules:

- `Wrappers` (`wrappers.dfy`): `Option`, `Result`, `Outcome`.
- `FeedErrors` (`errors.dfy`): the exceptions the code raises, as values.
- `Registry` (`registry.dfy`):
  - the thirteen table names and their canonical order;
  - the file name of each table;
  - the allowed distance units.
- `Tables` (`tables.dfy`): tables as values.
  - A DataFrame is a rectangular `Table(columns, rows)` whose cells are
    missing, an integer, or text.
  - `set_index` becomes `SetIndex` and `groupby` becomes `GroupBy`.
  - The order-insensitive comparison `almost_equal` becomes `AlmostEqual`.
- `PathNames` (`paths.dfy`): `Path.name`, `Path.suffix` and `Path.stem`.
- `FeedModel` (`feed.dfy`):
  - the state of a feed, with every operation as a function on states;
  - the class `Feed`, whose fields are that state. Its setter methods are
    proved to follow those functions.
  - construction, copy, and equality both as written and as intended.
- `FeedReader` (`reader.dfy`):
  - the file-acceptance rule and the loading loop of `_read_feed_from_path`;
  - the local-path-before-URL dispatch of `read_feed`;
  - the row collection of `list_feed`.
- `FeedWriter` (`writer.dfy`):
  - the integer-column rendering of `write`;
  - the per-table loop, and the choice between a zip archive and a directory.

The file system, archives, the network and the CSV parser become inputs:

- A directory is the sequence of its entries. Each entry carries its name, its
  kind, its size and what parsing it would give.
- An archive either unpacks to such a sequence or fails.
- `requests.head` is an outcome: OK, not OK, or raised.
- The download is a result.

`write` produces a report of the files it would write; it writes nothing.

Where the library's documentation and its code differ, the model follows the
code:

- The explicit cleanup call for the temporary directory of an unpacked
  archive is reached only when the loading loop finishes; an error while
  loading skips that call. The model's flag records whether it was reached.
- `__eq__` raises, rather than returning False, when the left feed lacks a
  table the right one has (see Findings).
- `DataFrame.empty` is true for zero rows *or* zero columns. Both collapse to
  "no table" at load time, and neither builds an index.
- `list_feed` skips a member called `./` only in a zip archive, never in a
  directory.

## Model

| member | source | states |
|---|---|---|
| FeedModel.KeyedIndex | gtfs_kit/feed.py:235-238 | no index for an absent or empty table; otherwise a KeyError exactly when the key column is missing, else the table keyed by that column |
| FeedModel.GroupedIndex | gtfs_kit/feed.py:272-277 | no grouping for an absent or empty table; otherwise a KeyError exactly when some key column is missing, else the rows grouped by those columns |
| FeedModel.FeedState.With | gtfs_kit/feed.py:234 | storing a table changes that slot only: every other table, the units and the three indexes are kept |
| FeedModel.EmptyState | gtfs_kit/feed.py:173-189 | a feed built from units alone has those units, no table and no index |
| FeedModel.FreshTripsIndex | gtfs_kit/feed.py:229-238 | a fresh trips index is absent iff trips is None or empty; otherwise it is trips keyed by `trip_id`, and looking up an id yields exactly the rows carrying it |
| FeedModel.FreshCalendarIndex | gtfs_kit/feed.py:247-256 | the same for the calendar keyed by `service_id` |
| FeedModel.FreshCalendarDatesGroups | gtfs_kit/feed.py:265-277 | fresh groups are absent iff calendar_dates is None or empty; otherwise a `(service_id, date)` key has a group iff it has no missing cell and some row carries it, and the group is those rows in order |
| FeedModel.AssignTable | gtfs_kit/feed.py:229-277 | assigning a table: the value is stored first; trips, calendar and calendar_dates then rebuild their index, and a KeyError leaves the new table stored beside the old index; every other table is only stored |
| FeedModel.AssignDistUnits | gtfs_kit/feed.py:213-220 | a unit outside the allowed set raises and changes nothing; an allowed one is stored exactly |
| FeedModel.AssignTableFrame | gtfs_kit/feed.py:229-277 | an assignment stores its value and changes no other table and not the units; it raises iff the index cannot be built, and then the old index stays; only the assigned table's own index can change |
| FeedModel.AssignTableRefreshes | gtfs_kit/feed.py:229-277 | after a successful assignment the assigned table's index is fresh and every other index is as fresh as before |
| FeedModel.InPlaceEditLeavesTripsIndexStale | gtfs_kit/feed.py:63-78 | changing trips in place leaves the trips index stale whenever the new table indexes differently; reassigning trips to itself makes it fresh again |
| FeedModel.CompareSlotAsWritten | gtfs_kit/feed.py:305-313 | one turn of the comparison loop as written: a table on the left needs an almost equal table on the right; anything else is compared with `!=`, which raises when the right side holds a table |
| FeedModel.FeedsEqualAsWritten | gtfs_kit/feed.py:303-315 | the comparison loop as written: False at the first mismatch, the error of the first turn that raises, True when every attribute matched |
| FeedModel.FeedsEqual | gtfs_kit/feed.py:293-300 | equality as documented: the same units and, table by table, both absent or both present and almost equal |
| FeedModel.Feed.EqualsAsWritten | gtfs_kit/feed.py:293-315 | `__eq__` as written, on two feed objects, walking through the attributes in a given order |
| FeedModel.Feed.Equals | gtfs_kit/feed.py:293-300 | `__eq__` as documented, on two feed objects |
| FeedModel.FeedsEqualMeans | gtfs_kit/feed.py:293-301 | intended equality: identical units and, table by table, both absent or both present and almost equal |
| FeedModel.FeedsEqualOnAttrs | gtfs_kit/feed.py:303-305 | for any order holding the units and all thirteen tables, intended equality is the slot-by-slot comparison over that order |
| FeedModel.PrimaryAttrsIsOrder | gtfs_kit/feed.py:173-189 | the units followed by the tables in the constructor's parameter order hold every attribute, so an order the `__eq__` lemmas accept exists |
| FeedModel.FeedsEqualIsEquivalence | gtfs_kit/feed.py:293-301 | intended feed equality is reflexive, symmetric and transitive |
| FeedModel.EqualsAsWrittenAgrees | gtfs_kit/feed.py:303-315 | over any attribute list: where the loop as written returns, it returns the intended answer; it raises only at a slot with no table on the left and a table on the right; it never raises when both feeds have tables in the same slots |
| FeedModel.EqualsAsWrittenOnFeeds | gtfs_kit/feed.py:293-315 | in any order holding the units and all thirteen tables: `__eq__` as written returns intended feed equality whenever it returns; it raises only when some table is absent on the left and present on the right; it always returns when both feeds hold the same tables |
| FeedModel.RaisesAtFirstPresenceMismatch | gtfs_kit/feed.py:307-313 | when the earlier slots match and at slot `i` the left feed has no table but the right has one, the loop raises the ambiguous-truth-value error for that attribute |
| FeedModel.EqualsAsWrittenRaisesOnMissingTable | gtfs_kit/feed.py:307-313 | in any order holding the units and all thirteen tables: a feed without trips compared with the same feed plus a trips table raises; the other way round returns False; the intended equality is False both ways |
| FeedModel.ReorderedTableKeepsFeedEqual | gtfs_kit/feed.py:297-300 | replacing a table by an almost equal one keeps the feed equal |
| FeedModel.PermutedTableKeepsFeedEqual | gtfs_kit/feed.py:299-300 | shuffling a table's rows, and also permuting its distinct columns, keeps the feed equal |
| FeedModel.CopyStep | gtfs_kit/feed.py:324-332 | one transfer of `copy`: a table goes through its setter, an index is stored as it is |
| FeedModel.CopyFrom | gtfs_kit/feed.py:323-332 | the transfers in the given order, stopping at the first that raises |
| FeedModel.CopySpec | gtfs_kit/feed.py:317-334 | `copy`: a fresh feed with the same units, then every attribute transferred in the given order |
| FeedModel.InitSpec | gtfs_kit/feed.py:173-204 | construction: the units are validated first, then each table goes through its setter in parameter order |
| FeedModel.CopyFailurePersists | gtfs_kit/feed.py:323-332 | once a transfer raises, the later attributes change nothing and the copy fails with that error |
| FeedModel.CopyPrefix | gtfs_kit/feed.py:322-332 | transferring any attribute sequence into a fresh feed succeeds iff every indexed table among them builds its index; the transferred tables are the source's and the others are absent; each index is the original's or the rebuilt one, whichever was written last |
| FeedModel.CopyIsEqual | gtfs_kit/feed.py:317-334 | for any order of the attribute set, `copy` succeeds iff the three indexed tables build cleanly; then it has the same units and tables, is equal to the original, and has each index either copied or rebuilt |
| FeedModel.CopyOfFreshFeedIsIdentical | gtfs_kit/feed.py:317-334 | the copy of a feed whose indexes are fresh is that very state, indexes included, whatever the iteration order |
| FeedModel.ArgumentState | gtfs_kit/feed.py:173-189 | a constructor argument is the table given for that name, or None by default |
| FeedModel.TransferTablesOnly | gtfs_kit/feed.py:202-204 | assigning every table (and no index) into a fresh feed succeeds iff the indexed tables build cleanly; then it holds the source's tables with every index fresh |
| FeedModel.InitEstablishesInvariant | gtfs_kit/feed.py:173-204 | construction fails on bad units with the units error; otherwise it succeeds iff trips, calendar and calendar_dates build their indexes, and the feed then holds each argument with all indexes fresh |
| FeedModel.Feed.constructor | gtfs_kit/feed.py:322 | `Feed(dist_units=...)` with units already known to be allowed: those units, no tables and no indexes |
| FeedModel.Feed.SetDistUnits | gtfs_kit/feed.py:213-220 | the new state and outcome are those of `AssignDistUnits`: it raises iff the unit is not allowed and then changes nothing, otherwise it stores the unit; validity is kept |
| FeedModel.Feed.SetTrips | gtfs_kit/feed.py:229-238 | the new state and outcome are those of the trips assignment: trips holds the value, the index is fresh after success and unchanged after a KeyError |
| FeedModel.Feed.SetCalendar | gtfs_kit/feed.py:247-256 | the same for the calendar and its `service_id` index |
| FeedModel.Feed.SetCalendarDates | gtfs_kit/feed.py:265-277 | the same for calendar_dates and its `(service_id, date)` groups |
| FeedModel.Feed.SetTable | gtfs_kit/feed.py:202-204 | `setattr` of any table: the new state and outcome are those of `AssignTable` |
| FeedModel.Feed.EditInPlace | gtfs_kit/feed.py:63-78 | changing a table without assigning it changes that field only; the units and the indexes are outside its frame |
| FeedModel.Feed.Copy | gtfs_kit/feed.py:317-334 | the copy succeeds iff the copy function does; it is then a fresh, valid feed holding that function's state, and otherwise the error is the same |
| FeedModel.Transfer | gtfs_kit/feed.py:322-332 | a fresh feed with the source's units into which the attributes are transferred one by one, aborting at the first that raises: the result is exactly the copy function's |
| FeedModel.NewFeed | gtfs_kit/feed.py:173-204 | construction as a method: fresh and valid, holding exactly the construction function's state, with its error otherwise |
| FeedModel.CopyThenAssign | gtfs_kit/feed.py:317-334 | for any valid feed, stale indexes included, a copy is independent of its original: the copy succeeds iff `copy` does, assigning a table of the copy sets that table of the copy, and the original is unchanged |
| Registry.FromName | gtfs_kit/feed.py:450-458 | a name that denotes a table is that table's name |
| Registry.TableOrderComplete | gtfs_kit/feed.py:359 | every table occurs in the canonical table order |
| Registry.TableOrderDistinct | gtfs_kit/feed.py:359 | no table occurs twice in it (`unique()`) |
| Registry.NameRoundTrip | gtfs_kit/feed.py:452-458 | reading back a table's name gives that table |
| Registry.NameIsTableName | gtfs_kit/feed.py:450 | every table's name is a key of the initial dictionary |
| Registry.TableNamesExact | gtfs_kit/feed.py:458 | a string is a table name iff it denotes a table |
| PathNames.Split | gtfs_kit/feed.py:346 | the pieces between the separators hold no separator and join back into the path |
| PathNames.Kept | gtfs_kit/feed.py:346 | a string is kept iff it is one of the pieces and is neither empty nor "." |
| PathNames.Components | gtfs_kit/feed.py:346 | the components `Path` keeps: a string is a component iff it is a piece between separators other than an empty one (repeated or trailing separators) or "."; none holds a separator |
| PathNames.FinalNameIsLastPiece | gtfs_kit/feed.py:346-348 | `Path(p).name` is empty iff every piece between separators is empty or "."; otherwise it is a piece followed only by empty and "." pieces |
| PathNames.KeptNothing | gtfs_kit/feed.py:346 | nothing is kept iff every piece is empty or "." |
| PathNames.KeptLastPiece | gtfs_kit/feed.py:346 | the last piece kept is a piece followed only by empty and "." pieces |
| PathNames.FinalName | gtfs_kit/feed.py:346-348 | `Path(p).name`: the text after the last separator of the normalised path; it holds no separator and is never "."; it is empty iff the path has no component, and otherwise it is the last component |
| PathNames.TrailingDotDropped | gtfs_kit/feed.py:346-348 | for every component `d` (non-empty, not ".", no separator), `d/.` has the name `d`: a trailing "." is dropped |
| PathNames.RepeatedSeparatorsDropped | gtfs_kit/feed.py:346-348 | for all components `a` and `b`, `a//b/` has the name `b`: repeated and trailing separators are dropped |
| PathNames.DotsOnly | gtfs_kit/feed.py:346-348 | `./` has an empty name |
| PathNames.ParentKept | gtfs_kit/feed.py:346-348 | for every component `a`, `a/..` has the name `..`, which `Path` does not resolve |
| PathNames.Suffix | gtfs_kit/feed.py:348 | `Path.suffix`: from the last dot on, unless that dot begins or ends the name |
| PathNames.Stem | gtfs_kit/feed.py:452 | `Path.stem`: the name without its suffix |
| PathNames.StemThenSuffix | gtfs_kit/feed.py:452-457 | a file name is its stem followed by its suffix |
| PathNames.SuffixExactly | gtfs_kit/feed.py:457 | a name has suffix `ext` iff it ends with `ext` and has a character before it; the stem is then what precedes it |
| PathNames.JoinedName | gtfs_kit/feed.py:371 | `<table>.txt` has suffix `.txt` and stem `<table>` |
| FeedReader.Accepts | gtfs_kit/feed.py:452-459 | the loader reads an entry iff it is a regular file of non-zero size whose suffix is `.txt` and whose stem is a table name |
| FeedReader.EntryTable | gtfs_kit/feed.py:452-458 | an accepted entry is named `<table>.txt` for the table it is loaded into |
| FeedReader.AcceptsExactly | gtfs_kit/feed.py:454-459 | an entry is loaded iff it is a regular file of non-zero size named `<table>.txt` for some table |
| FeedReader.EntryTableInjective | gtfs_kit/feed.py:452-458 | two accepted entries load into the same table iff they have the same name |
| Strings.Strip | gtfs_kit/feed.py:464 | `str.strip()` as the column-name cleaner applies it: the text between the leading and the trailing whitespace |
| Strings.StripMeaning | gtfs_kit/feed.py:464 | stripping removes whitespace only, from the two ends, and leaves text with no whitespace at either end; stripping twice is stripping once |
| FeedReader.CleanColumns | gtfs_kit/feed.py:464 | cleaning keeps the rows and strips each column name |
| FeedReader.InitialDictKeys | gtfs_kit/feed.py:450 | every table name starts out as a key holding None |
| FeedReader.FileNameInjective | gtfs_kit/feed.py:371 | distinct tables have distinct file names |
| FeedReader.Record | gtfs_kit/feed.py:454-464 | one turn of the loading loop: an entry that is not accepted changes nothing; an accepted one raises its parse error, or is stored under its table with stripped column names unless it is empty |
| FeedReader.Load | gtfs_kit/feed.py:449-464 | the dictionary after the loop, starting from every table absent, or the first parse error |
| FeedReader.LoadFailure | gtfs_kit/feed.py:454-464 | loading fails iff some accepted entry does not parse, and then with the parse error of such an entry |
| FeedReader.RecordStep | gtfs_kit/feed.py:454-464 | one loop turn changes only the slot the entry fills, to its table with stripped column names |
| FeedReader.LoadContents | gtfs_kit/feed.py:449-466 | after a successful load every table name is a key; a table is present iff some entry fills it, and it then holds that entry's table with column names stripped; unrecognised files add nothing |
| FeedReader.LoadedTablesAreClean | gtfs_kit/feed.py:463-464 | a stored table is never empty, and none of its column names begins or ends with whitespace |
| FeedReader.LoadTables | gtfs_kit/feed.py:450-464 | the in-place loop over the entries computes exactly the load function |
| FeedReader.LoadFailurePersists | gtfs_kit/feed.py:462 | once an entry fails to parse, later entries change nothing |
| FeedReader.ReadFromPath | gtfs_kit/feed.py:436-473 | a missing path raises; an archive that does not unpack raises; otherwise its entries are read; the flag says whether the explicit cleanup call was reached |
| FeedReader.ReadEntries | gtfs_kit/feed.py:449-473 | loading the entries, then building the feed from the dictionary and the units |
| FeedReader.ReadEntriesMeaning | gtfs_kit/feed.py:449-473 | a successful read holds each filled table, no other table, with fresh indexes; a parse error is reported as such and the explicit cleanup call is not reached; bad units raise only once every file has loaded; the cleanup call is reached iff loading an archive succeeded |
| FeedReader.ReadFeedFromPath | gtfs_kit/feed.py:420-473 | the method returns exactly what the path-reading function gives, as a fresh valid feed, and the same cleanup flag |
| FeedReader.ReadFeedSpec | gtfs_kit/feed.py:510-515 | `read_feed`: an existing local path is read; otherwise a raising HEAD request passes its error on, a status that is not OK raises, and an OK status reads the downloaded archive |
| FeedReader.LocalPathFirst | gtfs_kit/feed.py:510-515 | an existing local path is read and the network's answers do not matter; a missing path with a bad status raises; with an OK status the downloaded archive is read |
| FeedReader.ReadFeed | gtfs_kit/feed.py:496-515 | `read_feed` returns exactly what the dispatch function gives, as a fresh feed that satisfies the feed invariant |
| FeedReader.ListedRows | gtfs_kit/feed.py:398-415 | one `(file_name, file_size)` row per entry, in order, skipping the `./` member of an archive |
| FeedReader.ListSpec | gtfs_kit/feed.py:384-417 | `list_feed`: a missing path raises; an archive that does not open raises; otherwise the table of the listed rows |
| FeedReader.ListedRowsExact | gtfs_kit/feed.py:398-415 | a `(name, size)` row is listed iff it is an entry, except `./` in an archive; a directory lists one row per entry |
| FeedReader.ListedRowsInOrder | gtfs_kit/feed.py:398-415 | the rows keep the entries' order: a directory lists entry `k` as row `k`, and an archive without a `./` member lists the same rows |
| FeedReader.ListExample | gtfs_kit/feed.py:399-417 | an archive with `./`, `agency.txt` (120) and `stops.txt` (340) lists exactly those two files; an empty directory gives a table without columns |
| FeedReader.ListFeed | gtfs_kit/feed.py:384-417 | the appending loop computes exactly the listing function |
| FeedWriter.DigitsRoundTrip | gtfs_kit/feed.py:370 | decimal digits read back as the number they were printed from |
| FeedWriter.ParseInt | gtfs_kit/feed.py:370 | `int(text)` in base 10: whitespace around the number is ignored, then an optional sign and digits that single underscores may group; anything else fails |
| FeedWriter.DecimalRoundTrip | gtfs_kit/feed.py:370 | `str(n)` reads back as `n` and has no decimal point |
| FeedWriter.DecimalMinusOne | gtfs_kit/feed.py:370 | only -1 prints as "-1" |
| FeedWriter.RenderIntCell | gtfs_kit/feed.py:370 | one cell of an integer column: a missing cell becomes -1, the cell is cast to a 64-bit integer, printed, and a printed "-1" becomes blank |
| FeedWriter.RenderIntCellMeaning | gtfs_kit/feed.py:370 | a cell of an integer column fails to render iff it is text `int` rejects or an integer outside the 64-bit range; it renders blank iff it is missing or a genuine -1; any other integer renders as text that reads back as it, without a decimal point |
| FeedWriter.SpacedText | gtfs_kit/feed.py:370 | the text " 7" in an integer column is written as "7" |
| FeedWriter.GroupedText | gtfs_kit/feed.py:370 | the text "1_0" in an integer column is written as "10" |
| FeedWriter.RejectedCells | gtfs_kit/feed.py:370 | "1__0", "- 5", "7.0" and 2^63 all make the cast fail |
| FeedWriter.FirstCastFailure | gtfs_kit/feed.py:368-370 | the first column position, from a start on, whose integer column holds a cell that cannot be cast, or none |
| FeedWriter.RenderIntColumns | gtfs_kit/feed.py:368-370 | preparing one table: the integer column at the lowest position that cannot be cast raises; otherwise every cell of every integer column is rendered |
| FeedWriter.RenderIntColumnsMeaning | gtfs_kit/feed.py:364-370 | for every table, header-only and column-less ones included: preparing fails iff some integer column holds an uncastable cell, and the error names such a column; otherwise the columns and the number of rows are kept, other cells are unchanged and every integer cell is rendered |
| FeedWriter.CoerceIntColumns | gtfs_kit/feed.py:368-370 | the column-by-column loop computes exactly the preparation function |
| FeedWriter.CoerceColumn | gtfs_kit/feed.py:370 | the row-by-row update renders column `j` and leaves the rest as it was |
| FeedWriter.Present | gtfs_kit/feed.py:359-362 | the tables kept are exactly those the feed holds, in order |
| FeedWriter.WriteTables | gtfs_kit/feed.py:359-372 | the loop over the tables: absent tables skipped, present ones prepared and written as `<table>.txt`, stopping at the first error |
| FeedWriter.WriteTablesExact | gtfs_kit/feed.py:359-372 | the files written are those of the present tables, in order, each `<table>.txt` with its prepared content; after a failure the earlier files are written and the error is that table's |
| FeedWriter.WriteTablesSucceeds | gtfs_kit/feed.py:359-372 | every present table is written iff none of them fails to prepare |
| FeedWriter.WriteFailurePersists | gtfs_kit/feed.py:359-372 | once a table fails to prepare, later tables change nothing |
| FeedWriter.ZipMode | gtfs_kit/feed.py:346-348 | zip mode iff the suffix of the path's name is `.zip` |
| FeedWriter.ZipModeExactly | gtfs_kit/feed.py:348 | zip mode iff the last component of the normalised path ends in `.zip` with a character before it |
| FeedWriter.TrailingDotZipped | gtfs_kit/feed.py:346-348 | for every non-empty `base` without a separator, `base.zip/.` is written as a zip archive |
| FeedWriter.WriteSpec | gtfs_kit/feed.py:346-378 | `write`: the mode from the path, the directory created only in directory mode when the path does not exist, the tables written in canonical order, and the archive made only when every table was written |
| FeedWriter.Write | gtfs_kit/feed.py:336-378 | `write` reports exactly the write function's result: mode, directory creation, files, error, archiving |
| FeedWriter.WriteEach | gtfs_kit/feed.py:359-372 | the loop over the tables computes exactly the file list and error of the writing function |
| Tables.AlmostEqual | gtfs_kit/feed.py:297-300 | almost equality: the same multiset of column names and the same multiset of rows, each row read as a map from column name to cell |
| Tables.AlmostEqualIsEquivalence | gtfs_kit/feed.py:299-300 | almost equality is reflexive, symmetric and transitive |
| Tables.RowOrderIrrelevant | gtfs_kit/feed.py:299-300 | tables with the same columns whose rows are a permutation of each other are almost equal |
| Tables.ColumnOrderIrrelevant | gtfs_kit/feed.py:299-300 | permuting distinctly named columns yields an almost equal table |
| Tables.SetIndex | gtfs_kit/feed.py:236 | `set_index` raises iff the column is missing, naming it; otherwise each row keeps its place, keyed by its cell in that column, with that column removed |
| Tables.SetIndexLookup | gtfs_kit/feed.py:236 | looking up a key in the index yields exactly the rows carrying it |
| Tables.GroupRows | gtfs_kit/feed.py:272-275 | grouping row by row: each row joins the end of its key's group, and a key with a missing cell is dropped |
| Tables.GroupRowsExact | gtfs_kit/feed.py:273-275 | a key has a group iff it has no missing cell and some row carries it; the group is those rows in order |
| Tables.GroupBy | gtfs_kit/feed.py:273-275 | `groupby` raises iff some key column is missing, naming one; otherwise it keeps the keys and the columns |

## Left out

- The method surface imported into the class from other modules (routes, stops, shapes, calendars, validators, cleaners): those modules are not part of this model.
- `__str__`: display formatting only.
- The constants module is not part of this model. The table names, their order and the allowed units (`ft`, `mi`, `m`, `km`) are fixed here. The set of integer columns is a parameter.
- `helpers.almost_equal` is not part of this model. It is modelled from its description: the same multiset of column names and the same multiset of rows, each row read as a map from column name to cell.
- Floating-point cells and the `float_format` rounding of `write`: cells are missing, integers or text.
- CSV layout, column types (`dtype`), encodings and the byte-order mark: parsing is an input of each directory entry.
- Object identity, `DataFrame.copy` and `deepcopy`: tables are values. So the copy is independent by construction, and the copying of the index objects is the identity.
- The iteration order of the set of attribute names in `copy` is arbitrary: it is a parameter, and the lemmas hold for every order.
- FeedModel.Feed.EqualsAsWritten: the order of the attribute list `__eq__` walks through comes from the constants module, which is not part of this model. The order is a parameter. It decides only whether a comparison that meets a table present on the right only raises ValueError or first returns False at an earlier mismatch. EqualsAsWrittenAgrees holds for every list, and the other `__eq__` lemmas hold for every order that holds all the attributes. `PrimaryAttrs`, the constructor's parameter order, is one such order.
- Real effects are left out: the file system, `mkdir`, the zip archive, temporary directories, `requests.get` and `requests.head`. They are inputs or reported flags.
- `_read_feed_from_url`: its temporary file is not modelled. The downloaded body is read as an archive.
- `tempfile.TemporaryDirectory` also removes its directory from a finaliser when the object is collected, which happens after an error too. That finaliser is not modelled: the reader's flag records only whether the explicit cleanup call was reached.
- `write`: the name of the archive, built from the path's parent and stem, is not reported; the report records only that an archive is made.
- Whitespace, for `str.strip` and for `int`, is the ten ASCII whitespace characters; other Unicode whitespace is not modelled.
- FeedWriter.ParseInt: digits outside ASCII, which `int` also accepts, are not modelled; such text counts as a cast failure.
- FeedWriter.FirstCastFailure: the source loops over a set of integer columns, so which failing column raises first is unspecified; the model picks the one at the lowest position.
- FeedWriter.RenderIntColumnsMeaning: promises only that the error names some failing integer column, since the source does not fix which.
- FeedWriter.RenderIntCellMeaning: a ValueError and an OverflowError are both reported as the one cast error; digits and whitespace outside ASCII are not modelled.
- Duplicate column names are kept as given; a row map keeps the last cell of a repeated name. The column-order lemma assumes distinct names.
- FeedModel.Feed.EditInPlace: describes `feed.trips[c] = ...` by its effect on the field, a whole new table value. Mutation through a shared reference is not modelled.
- FeedModel.Feed.Copy: returns a new object, but the tables inside are values shared with the original. Independence holds because values cannot be mutated, not because of a deep copy.

## Findings

| source | as written | input that shows it | evidently intended | confidence | as-written member | corrected member |
|---|---|---|---|---|---|---|
| gtfs_kit/feed.py:307-313 | when the left feed holds None in a table slot and the right one holds a DataFrame, the `else` branch evaluates `None != df`, which is a DataFrame; using it in `if` raises ValueError (ambiguous truth value) | a feed without trips compared with the same feed plus a one-row trips table; the reverse comparison returns False | `__eq__` returns False when a table is present on one side only | not executed | FeedModel.EqualsAsWrittenRaisesOnMissingTable | FeedModel.FeedsEqualMeans |
