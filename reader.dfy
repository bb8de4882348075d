/**
 * The decisions the feed's input code makes: which files of a feed
 * directory are loaded into which table, what a loaded table looks like,
 * whether a local path or a URL is read, and what `list_feed` reports. The
 * file system, the archive, the network and the CSV parser are inputs: a
 * directory is the sequence of its entries, each carrying what parsing it
 * would give.
 */
module FeedReader {
  import opened Wrappers
  import opened Tables
  import opened Registry
  import opened FeedErrors
  import opened PathNames
  import opened FeedModel
  import opened Strings

  // ---------------------------------------------------------------------
  // Which files are loaded
  // ---------------------------------------------------------------------

  /**
   * One entry of the directory being read: its name, whether it is a
   * regular file, its size in bytes, and what parsing it as CSV gives.
   */
  datatype DirEntry = DirEntry(name: string, isFile: bool, size: nat, parsed: Result<Frame, string>)

  /** The loader reads an entry exactly when it is a non-empty regular file with suffix ".txt" whose stem is a table name. */
  predicate Accepts(e: DirEntry) {
    e.isFile && e.size != 0 && Suffix(e.name) == ".txt" && Stem(e.name) in TableNames
  }

  /** The table an accepted entry is loaded into. */
  function EntryTable(e: DirEntry): (t: TableName)
    requires Accepts(e)
    ensures e.name == FileName(t)
  {
    TableNamesExact(Stem(e.name));
    StemThenSuffix(e.name);
    FromName(Stem(e.name)).value
  }

  /** An entry is accepted exactly when it is a non-empty regular file named `<table>.txt` for some table. */
  lemma AcceptsExactly(e: DirEntry)
    ensures Accepts(e) <==> e.isFile && e.size > 0 && exists t :: e.name == FileName(t)
  {
    if exists t :: e.name == FileName(t) {
      var t :| e.name == FileName(t);
      NameIsPlain(t);
      assert ".txt"[1..] == "txt";
      JoinedName(Name(t), ".txt");
      NameIsTableName(t);
    }
    if Accepts(e) {
      var t := EntryTable(e);
    }
  }

  /** Two accepted entries load into the same table exactly when they have the same name. */
  lemma EntryTableInjective(e: DirEntry, f: DirEntry)
    requires Accepts(e) && Accepts(f)
    ensures EntryTable(e) == EntryTable(f) <==> e.name == f.name
  {
    if e.name == f.name {
      assert FromName(Stem(e.name)) == FromName(Stem(f.name));
    }
  }

  // ---------------------------------------------------------------------
  // Column names (`cleaners.clean_column_names`)
  // ---------------------------------------------------------------------

  /** A table with every column name stripped. */
  function CleanColumns(t: Frame): (u: Frame)
    ensures |u.columns| == |t.columns| && u.rows == t.rows
    ensures forall j :: 0 <= j < |t.columns| ==> u.columns[j] == Strip(t.columns[j])
  {
    Table(seq(|t.columns|, j requires 0 <= j < |t.columns| => Strip(t.columns[j])), t.rows)
  }

  // ---------------------------------------------------------------------
  // The loading loop of `_read_feed_from_path`
  // ---------------------------------------------------------------------

  type FeedDict = map<TableName, Option<Frame>>

  /** Every table name starts out with no table. */
  const InitialDict: FeedDict := map t | t in TableOrder :: None

  /** One entry through the loop body: parse an accepted entry and store it when not empty. */
  function Record(d: FeedDict, e: DirEntry): Result<FeedDict, FeedError> {
    if !Accepts(e) then Success(d)
    else match e.parsed
      case Failure(m) => Failure(ParseFailure(e.name, m))
      case Success(f) => if Empty(f) then Success(d) else Success(d[EntryTable(e) := Some(CleanColumns(f))])
  }

  /** The dictionary after the loop over `es`, or the first parse error. */
  function Load(es: seq<DirEntry>): Result<FeedDict, FeedError> {
    if es == [] then Success(InitialDict)
    else
      var n := |es| - 1;
      match Load(es[..n])
      case Failure(err) => Failure(err)
      case Success(d) => Record(d, es[n])
  }

  /** Entry `e` puts a table into slot `t`: it is accepted as `<t>.txt`, parses, and is not empty. */
  predicate Fills(e: DirEntry, t: TableName) {
    Accepts(e) && EntryTable(e) == t && e.parsed.Success? && !Empty(e.parsed.value)
  }

  /** Entry `e` aborts the load: it is accepted and does not parse. */
  predicate Breaks(e: DirEntry) {
    Accepts(e) && e.parsed.Failure?
  }

  lemma InitialDictKeys()
    ensures forall t :: t in InitialDict && InitialDict[t] == None
  {
    forall t ensures t in InitialDict {
      TableOrderComplete(t);
    }
  }

  /** Distinct tables have distinct file names. */
  lemma FileNameInjective(t: TableName, u: TableName)
    ensures FileName(t) == FileName(u) ==> t == u
  {
    assert ".txt"[1..] == "txt";
    NameIsPlain(t);
    NameIsPlain(u);
    JoinedName(Name(t), ".txt");
    JoinedName(Name(u), ".txt");
    NameRoundTrip(t);
    NameRoundTrip(u);
  }

  /** The loader fails exactly when some accepted entry does not parse, with that entry's error. */
  lemma {:induction false} LoadFailure(es: seq<DirEntry>)
    ensures Load(es).Failure? <==> exists k :: 0 <= k < |es| && Breaks(es[k])
    ensures Load(es).Failure? ==>
      exists k :: 0 <= k < |es| && Breaks(es[k]) && Load(es).error == ParseFailure(es[k].name, es[k].parsed.error)
  {
    if es != [] {
      var n := |es| - 1;
      LoadFailure(es[..n]);
      assert forall k :: 0 <= k < n ==> es[k] == es[..n][k];
    }
  }

  /** One step of the loop: only the slot the entry fills changes. */
  lemma RecordStep(d: FeedDict, e: DirEntry)
    requires forall t :: t in d
    requires Record(d, e).Success?
    ensures forall t :: t in Record(d, e).value
    ensures forall t :: Record(d, e).value[t] == if Fills(e, t) then Some(CleanColumns(e.parsed.value)) else d[t]
  {
    if Accepts(e) && e.parsed.Success? && !Empty(e.parsed.value) {
      var u := EntryTable(e);
      forall t ensures Fills(e, t) <==> t == u {
        FileNameInjective(t, u);
      }
    }
  }

  /** Some entry of `es` fills slot `t`. */
  predicate FilledBy(es: seq<DirEntry>, t: TableName) {
    exists k :: 0 <= k < |es| && Fills(es[k], t)
  }

  /** Some entry of `es` fills slot `t` with `f`, column names stripped. */
  predicate FilledWith(es: seq<DirEntry>, t: TableName, f: Frame) {
    exists k :: 0 <= k < |es| && Fills(es[k], t) && f == CleanColumns(es[k].parsed.value)
  }

  lemma FilledBySnoc(es: seq<DirEntry>, t: TableName)
    requires es != []
    ensures FilledBy(es, t) <==> FilledBy(es[..|es| - 1], t) || Fills(es[|es| - 1], t)
  {
    ExistsSnoc(es, es[..|es| - 1], e => Fills(e, t));
  }

  /** Some element of `xs` satisfies `p` exactly when one before the last does or the last does. */
  lemma ExistsSnoc<T>(xs: seq<T>, init: seq<T>, p: T -> bool)
    requires xs != [] && init == xs[..|xs| - 1]
    ensures (exists k :: 0 <= k < |xs| && p(xs[k])) <==>
      (exists k :: 0 <= k < |init| && p(init[k])) || p(xs[|xs| - 1])
  {
    assert forall k :: 0 <= k < |init| ==> init[k] == xs[k];
  }

  lemma FilledWithSnoc(es: seq<DirEntry>, t: TableName, f: Frame)
    requires es != []
    requires FilledWith(es[..|es| - 1], t, f) || (Fills(es[|es| - 1], t) && f == CleanColumns(es[|es| - 1].parsed.value))
    ensures FilledWith(es, t, f)
  {
    var n := |es| - 1;
    if FilledWith(es[..n], t, f) {
      var k :| 0 <= k < n && Fills(es[..n][k], t) && f == CleanColumns(es[..n][k].parsed.value);
      assert es[k] == es[..n][k];
    }
  }

  /**
   * When the loader succeeds, every table name is a key (and nothing else
   * is), and a table is present exactly when some entry fills it, holding
   * that entry's table with its column names stripped.
   */
  lemma {:induction false} LoadContents(es: seq<DirEntry>)
    requires Load(es).Success?
    ensures forall t :: t in Load(es).value
    ensures forall t :: Load(es).value[t].Some? <==> FilledBy(es, t)
    ensures forall t :: Load(es).value[t].Some? ==> FilledWith(es, t, Load(es).value[t].value)
  {
    if es == [] {
      InitialDictKeys();
    } else {
      var n := |es| - 1;
      var init := es[..n];
      LoadContents(init);
      var d := Load(init).value;
      var e := es[n];
      assert Load(es) == Record(d, e);
      RecordStep(d, e);
      var d' := Load(es).value;
      forall t ensures (d'[t].Some? <==> FilledBy(es, t)) && (d'[t].Some? ==> FilledWith(es, t, d'[t].value)) {
        FilledBySnoc(es, t);
        if d'[t].Some? {
          FilledWithSnoc(es, t, d'[t].value);
        }
      }
    }
  }

  /** Stored tables are never empty, and none of their column names begins or ends with whitespace. */
  lemma LoadedTablesAreClean(es: seq<DirEntry>, t: TableName)
    requires Load(es).Success? && t in Load(es).value && Load(es).value[t].Some?
    ensures !Empty(Load(es).value[t].value)
    ensures forall c :: c in Load(es).value[t].value.columns ==> Strip(c) == c
  {
    LoadContents(es);
    assert FilledWith(es, t, Load(es).value[t].value);
    var k :| 0 <= k < |es| && Fills(es[k], t) && Load(es).value[t].value == CleanColumns(es[k].parsed.value);
    var u := Load(es).value[t].value;
    forall c | c in u.columns ensures Strip(c) == c {
      var j :| 0 <= j < |u.columns| && u.columns[j] == c;
      StripMeaning(es[k].parsed.value.columns[j]);
    }
  }

  /** The loop of `_read_feed_from_path`, filling the dictionary in place. */
  method LoadTables(es: seq<DirEntry>) returns (r: Result<FeedDict, FeedError>)
    ensures r == Load(es)
  {
    var feedDict := InitialDict;
    var i := 0;
    while i < |es|
      invariant 0 <= i <= |es|
      invariant Load(es[..i]) == Success(feedDict)
    {
      assert es[..i + 1][..i] == es[..i];
      var e := es[i];
      if e.isFile && e.size != 0 && Suffix(e.name) == ".txt" && Stem(e.name) in TableNames {
        match e.parsed {
          case Failure(m) =>
            LoadFailurePersists(es, i + 1);
            return Failure(ParseFailure(e.name, m));
          case Success(df) =>
            if !Empty(df) {
              feedDict := feedDict[EntryTable(e) := Some(CleanColumns(df))];
            }
        }
      }
      i := i + 1;
    }
    assert es[..i] == es;
    r := Success(feedDict);
  }

  lemma {:induction false} LoadFailurePersists(es: seq<DirEntry>, j: nat)
    requires j <= |es| && Load(es[..j]).Failure?
    ensures Load(es) == Load(es[..j])
  {
    if j < |es| {
      var n := |es| - 1;
      assert es[..n][..j] == es[..j];
      LoadFailurePersists(es[..n], j);
    } else {
      assert es[..j] == es;
    }
  }

  // ---------------------------------------------------------------------
  // `_read_feed_from_path`
  // ---------------------------------------------------------------------

  /**
   * What a local path is: missing, a directory with its entries, or a file,
   * which is unpacked as a zip archive into a temporary directory (or fails
   * to unpack).
   */
  datatype LocalPath = Missing | Directory(entries: seq<DirEntry>) | ArchiveFile(unpacked: Result<seq<DirEntry>, string>)

  /**
   * Reading a local path: the result, and whether the explicit cleanup of
   * an archive's temporary directory was reached. That call comes only
   * after the loading loop finishes, so an error while loading skips it
   * (the directory object's own finaliser is not modelled); the units are
   * checked only when the feed is built, after every file was read.
   */
  function ReadFromPath(p: LocalPath, units: string): (Result<FeedState, FeedError>, bool) {
    match p
    case Missing => (Failure(PathDoesNotExist), false)
    case ArchiveFile(Failure(m)) => (Failure(BadArchive(m)), false)
    case ArchiveFile(Success(es)) => ReadEntries(es, units, true)
    case Directory(es) => ReadEntries(es, units, false)
  }

  /** Loading the entries `es` and building the feed; `zipped` says whether they came from an unpacked archive. */
  function ReadEntries(es: seq<DirEntry>, units: string, zipped: bool): (Result<FeedState, FeedError>, bool) {
    match Load(es)
    case Failure(e) => (Failure(e), false)
    case Success(d) => (InitSpec(units, d), zipped)
  }

  /**
   * A successful read holds, for every table, the stripped content of the
   * file that fills it, or nothing when no file does, with fresh indexes.
   * Reading fails on the first accepted file that does not parse, and only
   * after every file was read on bad units or on an indexed table that lacks
   * its key column; the explicit cleanup of the temporary directory is
   * reached exactly when loading an archive finished.
   */
  lemma ReadEntriesMeaning(es: seq<DirEntry>, units: string, zipped: bool)
    ensures var (r, cleaned) := ReadEntries(es, units, zipped);
      && (Load(es).Failure? ==> r == Failure(Load(es).error) && !cleaned)
      && (Load(es).Success? && units !in DistUnits ==> r == Failure(InvalidDistUnits(units)))
      && (Load(es).Success? ==> cleaned == zipped)
      && (r.Success? ==>
            && r.value.distUnits == units
            && IndexesFresh(r.value)
            && (forall t :: r.value.Get(t).Some? <==> FilledBy(es, t))
            && (forall t :: r.value.Get(t).Some? ==> FilledWith(es, t, r.value.Get(t).value)))
  {
    if Load(es).Success? {
      LoadContents(es);
      var d := Load(es).value;
      InitEstablishesInvariant(units, d);
      assert forall t :: Argument(d, t) == d[t];
    }
  }

  /** `_read_feed_from_path`: a fresh feed holding exactly the state `ReadFromPath` gives. */
  method ReadFeedFromPath(p: LocalPath, units: string) returns (r: Result<Feed, FeedError>, cleaned: bool)
    ensures cleaned == ReadFromPath(p, units).1
    ensures r.Success? <==> ReadFromPath(p, units).0.Success?
    ensures r.Success? ==> fresh(r.value) && r.value.Valid() && r.value.State() == ReadFromPath(p, units).0.value
    ensures r.Failure? ==> r.error == ReadFromPath(p, units).0.error
  {
    cleaned := false;
    var es: seq<DirEntry>;
    match p {
      case Missing => return Failure(PathDoesNotExist), false;
      case ArchiveFile(unpacked) =>
        if unpacked.Failure? {
          return Failure(BadArchive(unpacked.error)), false;
        }
        es := unpacked.value;
      case Directory(entries) => es := entries;
    }
    var loaded := LoadTables(es);
    if loaded.Failure? {
      return Failure(loaded.error), false;
    }
    cleaned := p.ArchiveFile?;
    r := NewFeed(units, loaded.value);
  }

  // ---------------------------------------------------------------------
  // `read_feed`: a local path first, then a URL
  // ---------------------------------------------------------------------

  /** What `requests.head` gives: an OK status, another status, or an exception. */
  datatype HeadOutcome = HeadOk | HeadNotOk | HeadRaised(message: string)

  /**
   * Reading from a path or URL. An existing local path is read and the URL
   * is never consulted; otherwise a HEAD request decides: an OK status reads
   * the downloaded body as an archive (`download`, which may itself fail in
   * transport), anything else raises.
   */
  function ReadFeedSpec(local: LocalPath, head: HeadOutcome, download: Result<Result<seq<DirEntry>, string>, string>, units: string)
    : Result<FeedState, FeedError>
  {
    if !local.Missing? then ReadFromPath(local, units).0
    else match head
      case HeadRaised(m) => Failure(Transport(m))
      case HeadNotOk => Failure(PathOrUrlUnavailable)
      case HeadOk =>
        match download
        case Failure(m) => Failure(Transport(m))
        case Success(body) => ReadFromPath(ArchiveFile(body), units).0
  }

  /**
   * An existing local path wins: the result does not depend on what the
   * network would answer. A missing path with a bad status raises the
   * "does not exist or bad status" error, and with an OK status the feed is
   * the one read from the downloaded archive.
   */
  lemma LocalPathFirst(local: LocalPath, h1: HeadOutcome, h2: HeadOutcome,
                       d1: Result<Result<seq<DirEntry>, string>, string>,
                       d2: Result<Result<seq<DirEntry>, string>, string>, units: string)
    ensures !local.Missing? ==> ReadFeedSpec(local, h1, d1, units) == ReadFeedSpec(local, h2, d2, units)
    ensures !local.Missing? ==> ReadFeedSpec(local, h1, d1, units) == ReadFromPath(local, units).0
    ensures local.Missing? && h1 == HeadNotOk ==> ReadFeedSpec(local, h1, d1, units) == Failure(PathOrUrlUnavailable)
    ensures local.Missing? && h1 == HeadOk && d1.Success? ==>
      ReadFeedSpec(local, h1, d1, units) == ReadFromPath(ArchiveFile(d1.value), units).0
  {
  }

  /** `read_feed`: a fresh feed, satisfying the feed invariant, holding exactly the state `ReadFeedSpec` gives. */
  method ReadFeed(local: LocalPath, head: HeadOutcome, download: Result<Result<seq<DirEntry>, string>, string>, units: string)
    returns (r: Result<Feed, FeedError>)
    ensures r.Success? <==> ReadFeedSpec(local, head, download, units).Success?
    ensures r.Success? ==> fresh(r.value) && r.value.Valid() && r.value.State() == ReadFeedSpec(local, head, download, units).value
    ensures r.Failure? ==> r.error == ReadFeedSpec(local, head, download, units).error
  {
    var cleaned;
    if !local.Missing? {
      r, cleaned := ReadFeedFromPath(local, units);
    } else if head.HeadRaised? {
      r := Failure(Transport(head.message));
    } else if head.HeadNotOk? {
      r := Failure(PathOrUrlUnavailable);
    } else if download.Failure? {
      r := Failure(Transport(download.error));
    } else {
      r, cleaned := ReadFeedFromPath(ArchiveFile(download.value), units);
    }
  }

  // ---------------------------------------------------------------------
  // `list_feed`
  // ---------------------------------------------------------------------

  /** A local path for listing: missing, a directory's (name, size) pairs, or a zip archive's member list. */
  datatype ListSource =
    | ListMissing
    | ListDirectory(entries: seq<(string, nat)>)
    | ListZip(members: Result<seq<(string, nat)>, string>)

  /** The rows recorded for `es`, skipping `"./"` when `skipDot` holds. */
  function ListedRows(es: seq<(string, nat)>, skipDot: bool): (rows: seq<Row>)
    ensures forall k :: 0 <= k < |rows| ==> |rows[k]| == 2
  {
    if es == [] then []
    else
      var n := |es| - 1;
      ListedRows(es[..n], skipDot) + (if skipDot && es[n].0 == "./" then [] else [[Text(es[n].0), Int(es[n].1)]])
  }

  /** `pd.DataFrame(rows)`: two columns, file name and file size; no rows at all give a table without columns. */
  function ListingTable(rows: seq<Row>): Frame
    requires forall k :: 0 <= k < |rows| ==> |rows[k]| == 2
  {
    if rows == [] then Table([], []) else Table(["file_name", "file_size"], rows)
  }

  function ListSpec(src: ListSource): Result<Frame, FeedError> {
    match src
    case ListMissing => Failure(PathDoesNotExist)
    case ListZip(Failure(m)) => Failure(BadArchive(m))
    case ListZip(Success(members)) => Success(ListingTable(ListedRows(members, true)))
    case ListDirectory(entries) => Success(ListingTable(ListedRows(entries, false)))
  }

  /**
   * A row is listed exactly for each entry, skipping only the archive
   * member called "./".
   */
  lemma {:induction false} ListedRowsExact(es: seq<(string, nat)>, skipDot: bool, name: string, size: nat)
    ensures [Text(name), Int(size)] in ListedRows(es, skipDot) <==> (name, size) in es && !(skipDot && name == "./")
    ensures !skipDot ==> |ListedRows(es, skipDot)| == |es|
    ensures |ListedRows(es, skipDot)| <= |es|
  {
    if es != [] {
      var n := |es| - 1;
      assert es == es[..n] + [es[n]];
      ListedRowsExact(es[..n], skipDot, name, size);
    }
  }

  /**
   * The rows keep the entries' order: a directory lists entry `k` as row
   * `k`, and an archive without a "./" member lists the same rows.
   */
  lemma ListedRowsInOrder(es: seq<(string, nat)>)
    ensures |ListedRows(es, false)| == |es|
    ensures forall k :: 0 <= k < |es| ==> ListedRows(es, false)[k] == [Text(es[k].0), Int(es[k].1)]
    ensures (forall k :: 0 <= k < |es| ==> es[k].0 != "./") ==> ListedRows(es, true) == ListedRows(es, false)
  {
    ListedRowsPositions(es);
    if forall k :: 0 <= k < |es| ==> es[k].0 != "./" {
      ListedRowsNoDot(es);
    }
  }

  /** Without skipping, entry `k` is row `k`. */
  lemma {:induction false} ListedRowsPositions(es: seq<(string, nat)>)
    ensures |ListedRows(es, false)| == |es|
    ensures forall k :: 0 <= k < |es| ==> ListedRows(es, false)[k] == [Text(es[k].0), Int(es[k].1)]
  {
    if es != [] {
      var n := |es| - 1;
      ListedRowsPositions(es[..n]);
      assert forall k :: 0 <= k < n ==> es[..n][k] == es[k];
    }
  }

  /** Without a "./" entry, skipping changes nothing. */
  lemma {:induction false} ListedRowsNoDot(es: seq<(string, nat)>)
    requires forall k :: 0 <= k < |es| ==> es[k].0 != "./"
    ensures ListedRows(es, true) == ListedRows(es, false)
  {
    if es != [] {
      var n := |es| - 1;
      assert forall k :: 0 <= k < n ==> es[..n][k].0 != "./";
      ListedRowsNoDot(es[..n]);
    }
  }

  lemma ListExample()
    ensures ListSpec(ListZip(Success([("./", 0), ("agency.txt", 120), ("stops.txt", 340)])))
      == Success(Table(["file_name", "file_size"], [[Text("agency.txt"), Int(120)], [Text("stops.txt"), Int(340)]]))
    ensures ListSpec(ListDirectory([])) == Success(Table([], []))
  {
    var es: seq<(string, nat)> := [("./", 0), ("agency.txt", 120), ("stops.txt", 340)];
    assert es[..1] == [("./", 0)];
    assert es[..1][..0] == [];
    assert ListedRows(es[..1], true) == [];
    assert es[..2][..1] == es[..1];
    assert ListedRows(es[..2], true) == [[Text("agency.txt"), Int(120)]];
    assert es[..2] == es[..|es| - 1];
    assert ListedRows(es, true) == [[Text("agency.txt"), Int(120)], [Text("stops.txt"), Int(340)]];
  }

  /** `list_feed`: one row appended per entry (skipping "./" in an archive). */
  method ListFeed(src: ListSource) returns (r: Result<Frame, FeedError>)
    ensures r == ListSpec(src)
  {
    var es: seq<(string, nat)>;
    var skipDot: bool;
    match src {
      case ListMissing => return Failure(PathDoesNotExist);
      case ListZip(members) =>
        if members.Failure? {
          return Failure(BadArchive(members.error));
        }
        es, skipDot := members.value, true;
      case ListDirectory(entries) => es, skipDot := entries, false;
    }
    var rows: seq<Row> := [];
    var i := 0;
    while i < |es|
      invariant 0 <= i <= |es|
      invariant rows == ListedRows(es[..i], skipDot)
    {
      assert es[..i + 1][..i] == es[..i];
      if !(skipDot && es[i].0 == "./") {
        rows := rows + [[Text(es[i].0), Int(es[i].1)]];
      }
      i := i + 1;
    }
    assert es[..i] == es;
    r := Success(ListingTable(rows));
  }
}
