/**
 * The fixed GTFS reference data a feed relies on: the thirteen table names in
 * their canonical order, the file name each table is stored under, and the
 * allowed distance units.
 */
module Registry {
  import opened Wrappers

  datatype TableName =
    | Agency | Stops | Routes | Trips | StopTimes | Calendar | CalendarDates
    | FareAttributes | FareRules | Shapes | Frequencies | Transfers | FeedInfo

  /** The name of the table as it appears in the reference data and in file names. */
  function Name(t: TableName): string {
    match t
    case Agency => "agency"
    case Stops => "stops"
    case Routes => "routes"
    case Trips => "trips"
    case StopTimes => "stop_times"
    case Calendar => "calendar"
    case CalendarDates => "calendar_dates"
    case FareAttributes => "fare_attributes"
    case FareRules => "fare_rules"
    case Shapes => "shapes"
    case Frequencies => "frequencies"
    case Transfers => "transfers"
    case FeedInfo => "feed_info"
  }

  /** The canonical iteration order of the tables. */
  const TableOrder: seq<TableName> := [
    Agency, Stops, Routes, Trips, StopTimes, Calendar, CalendarDates,
    FareAttributes, FareRules, Shapes, Frequencies, Transfers, FeedInfo
  ]

  const TableNames: set<string> := {"agency", "stops", "routes", "trips", "stop_times", "calendar", "calendar_dates", "fare_attributes", "fare_rules", "shapes", "frequencies", "transfers", "feed_info"}

  /** The table a name denotes, if any. */
  function FromName(s: string): (r: Option<TableName>)
    ensures r.Some? ==> Name(r.value) == s
  {
    if s == "agency" then Some(Agency)
    else if s == "stops" then Some(Stops)
    else if s == "routes" then Some(Routes)
    else if s == "trips" then Some(Trips)
    else if s == "stop_times" then Some(StopTimes)
    else if s == "calendar" then Some(Calendar)
    else if s == "calendar_dates" then Some(CalendarDates)
    else if s == "fare_attributes" then Some(FareAttributes)
    else if s == "fare_rules" then Some(FareRules)
    else if s == "shapes" then Some(Shapes)
    else if s == "frequencies" then Some(Frequencies)
    else if s == "transfers" then Some(Transfers)
    else if s == "feed_info" then Some(FeedInfo)
    else None
  }

  /** Every table occurs in the canonical order. */
  lemma TableOrderComplete(t: TableName)
    ensures t in TableOrder
  {
    match t
    case Agency => assert TableOrder[0] == t;
    case Stops => assert TableOrder[1] == t;
    case Routes => assert TableOrder[2] == t;
    case Trips => assert TableOrder[3] == t;
    case StopTimes => assert TableOrder[4] == t;
    case Calendar => assert TableOrder[5] == t;
    case CalendarDates => assert TableOrder[6] == t;
    case FareAttributes => assert TableOrder[7] == t;
    case FareRules => assert TableOrder[8] == t;
    case Shapes => assert TableOrder[9] == t;
    case Frequencies => assert TableOrder[10] == t;
    case Transfers => assert TableOrder[11] == t;
    case FeedInfo => assert TableOrder[12] == t;
  }

  /** No table occurs twice in the canonical order. */
  lemma TableOrderDistinct()
    ensures forall i, j :: 0 <= i < j < |TableOrder| ==> TableOrder[i] != TableOrder[j]
  {
  }

  /** Reading back the name of a table yields that table. */
  lemma NameRoundTrip(t: TableName)
    ensures FromName(Name(t)) == Some(t)
  {
    match t
    case Agency =>
    case Stops =>
    case Routes =>
    case Trips =>
    case StopTimes =>
    case Calendar =>
    case CalendarDates =>
    case FareAttributes =>
    case FareRules =>
    case Shapes =>
    case Frequencies =>
    case Transfers =>
    case FeedInfo =>
  }

  lemma NameIsTableName(t: TableName)
    ensures Name(t) in TableNames
  {
    match t
    case Agency =>
    case Stops =>
    case Routes =>
    case Trips =>
    case StopTimes =>
    case Calendar =>
    case CalendarDates =>
    case FareAttributes =>
    case FareRules =>
    case Shapes =>
    case Frequencies =>
    case Transfers =>
    case FeedInfo =>
  }

  /** A table name is a non-empty file stem: no dot and no path separator. */
  lemma NameIsPlain(t: TableName)
    ensures Name(t) != "" && '.' !in Name(t) && '/' !in Name(t)
  {
    match t
    case Agency =>
    case Stops =>
    case Routes =>
    case Trips =>
    case StopTimes =>
    case Calendar =>
    case CalendarDates =>
    case FareAttributes =>
    case FareRules =>
    case Shapes =>
    case Frequencies =>
    case Transfers =>
    case FeedInfo =>
  }

  /** A string is a table name exactly when it names a table. */
  lemma TableNamesExact(s: string)
    ensures s in TableNames <==> FromName(s).Some?
  {
    if FromName(s).Some? {
      NameIsTableName(FromName(s).value);
    }
  }

  /** The file a table is read from and written to. */
  function FileName(t: TableName): string {
    Name(t) + ".txt"
  }

  /** The allowed values of `dist_units`. */
  const DistUnits: set<string> := {"ft", "mi", "m", "km"}
}
