/**
 * The Feed container: one optional table per GTFS table name, the distance
 * units, and three indexes derived from the trips, calendar and
 * calendar_dates tables.  Assigning one of those three tables rebuilds its
 * index; nothing else does, so a table changed in place keeps a stale index
 * until it is assigned again.
 *
 * The pure part of the module describes a feed by its `FeedState` and gives
 * each operation as a function on states; the class `Feed` holds the same
 * state in fields and its methods are proved to follow those functions.
 */
module FeedModel {
  import opened Wrappers
  import opened Tables
  import opened Registry
  import opened FeedErrors

  /** The column the trips index is keyed by. */
  const TripKey: string := "trip_id"
  /** The column the calendar index is keyed by. */
  const ServiceKey: string := "service_id"
  /** The columns the calendar_dates rows are grouped by. */
  const CalendarDatesKeys: seq<string> := ["service_id", "date"]

  /** The condition under which a setter builds an index: the value is a table and not empty. */
  predicate Indexable(v: Option<Frame>) {
    v.Some? && !Empty(v.value)
  }

  /** The index a setter builds for `v` keyed by `key`, or the KeyError it raises. */
  function KeyedIndex(v: Option<Frame>, key: string): (r: Result<Option<Keyed>, string>)
    ensures !Indexable(v) ==> r == Success(None)
    ensures Indexable(v) ==> (r.Failure? <==> key !in v.value.columns)
    ensures Indexable(v) && r.Success? ==> r.value == Some(SetIndex(v.value, key).value)
  {
    if !Indexable(v) then Success(None)
    else match SetIndex(v.value, key)
      case Failure(c) => Failure(c)
      case Success(ix) => Success(Some(ix))
  }

  /** The grouping a setter builds for `v` by `keys`, or the KeyError it raises. */
  function GroupedIndex(v: Option<Frame>, keys: seq<string>): (r: Result<Option<Grouped>, string>)
    ensures !Indexable(v) ==> r == Success(None)
    ensures Indexable(v) ==> (r.Failure? <==> exists k :: k in keys && k !in v.value.columns)
    ensures Indexable(v) && r.Success? ==> r.value == Some(GroupBy(v.value, keys).value)
  {
    if !Indexable(v) then Success(None)
    else match GroupBy(v.value, keys)
      case Failure(c) => Failure(c)
      case Success(g) => Success(Some(g))
  }

  /** Everything a feed holds. */
  datatype FeedState = FeedState(
    distUnits: string,
    agency: Option<Frame>,
    stops: Option<Frame>,
    routes: Option<Frame>,
    trips: Option<Frame>,
    stopTimes: Option<Frame>,
    calendar: Option<Frame>,
    calendarDates: Option<Frame>,
    fareAttributes: Option<Frame>,
    fareRules: Option<Frame>,
    shapes: Option<Frame>,
    frequencies: Option<Frame>,
    transfers: Option<Frame>,
    feedInfo: Option<Frame>,
    tripsI: Option<Keyed>,
    calendarI: Option<Keyed>,
    calendarDatesG: Option<Grouped>)
  {
    /** The table stored under `t`. */
    function Get(t: TableName): Option<Frame> {
      match t
      case Agency => agency
      case Stops => stops
      case Routes => routes
      case Trips => trips
      case StopTimes => stopTimes
      case Calendar => calendar
      case CalendarDates => calendarDates
      case FareAttributes => fareAttributes
      case FareRules => fareRules
      case Shapes => shapes
      case Frequencies => frequencies
      case Transfers => transfers
      case FeedInfo => feedInfo
    }

    /** The same state with the table stored under `t` replaced by `v`, and nothing else changed. */
    function With(t: TableName, v: Option<Frame>): (r: FeedState)
      ensures r.Get(t) == v
      ensures forall u :: u != t ==> r.Get(u) == Get(u)
      ensures r.distUnits == distUnits
      ensures r.tripsI == tripsI && r.calendarI == calendarI && r.calendarDatesG == calendarDatesG
    {
      match t
      case Agency => this.(agency := v)
      case Stops => this.(stops := v)
      case Routes => this.(routes := v)
      case Trips => this.(trips := v)
      case StopTimes => this.(stopTimes := v)
      case Calendar => this.(calendar := v)
      case CalendarDates => this.(calendarDates := v)
      case FareAttributes => this.(fareAttributes := v)
      case FareRules => this.(fareRules := v)
      case Shapes => this.(shapes := v)
      case Frequencies => this.(frequencies := v)
      case Transfers => this.(transfers := v)
      case FeedInfo => this.(feedInfo := v)
    }
  }

  /** A feed with the given units and no tables. */
  function EmptyState(units: string): (s: FeedState)
    ensures s.distUnits == units
    ensures forall t :: s.Get(t) == None
    ensures s.tripsI == None && s.calendarI == None && s.calendarDatesG == None
  {
    FeedState(units, None, None, None, None, None, None, None, None, None, None, None, None, None,
      None, None, None)
  }

  /** Two states that agree on every table, the units and the indexes are the same state. */
  lemma StateExtensionality(a: FeedState, b: FeedState)
    requires forall t :: a.Get(t) == b.Get(t)
    requires a.distUnits == b.distUnits
    requires a.tripsI == b.tripsI && a.calendarI == b.calendarI && a.calendarDatesG == b.calendarDatesG
    ensures a == b
  {
    // Mentioning every table instantiates the hypothesis once per field.
    var agency, stops, routes := a.Get(Agency) == b.Get(Agency), a.Get(Stops) == b.Get(Stops), a.Get(Routes) == b.Get(Routes);
    var trips, stopTimes := a.Get(Trips) == b.Get(Trips), a.Get(StopTimes) == b.Get(StopTimes);
    var calendar, calendarDates := a.Get(Calendar) == b.Get(Calendar), a.Get(CalendarDates) == b.Get(CalendarDates);
    var fareAttributes, fareRules := a.Get(FareAttributes) == b.Get(FareAttributes), a.Get(FareRules) == b.Get(FareRules);
    var shapes, frequencies := a.Get(Shapes) == b.Get(Shapes), a.Get(Frequencies) == b.Get(Frequencies);
    var transfers, feedInfo := a.Get(Transfers) == b.Get(Transfers), a.Get(FeedInfo) == b.Get(FeedInfo);
  }

  // ---------------------------------------------------------------------
  // The index invariant
  // ---------------------------------------------------------------------

  /** The trips index is the one the trips setter builds from the current trips table. */
  predicate TripsIndexFresh(s: FeedState) {
    KeyedIndex(s.trips, TripKey) == Success(s.tripsI)
  }

  predicate CalendarIndexFresh(s: FeedState) {
    KeyedIndex(s.calendar, ServiceKey) == Success(s.calendarI)
  }

  predicate CalendarDatesGroupsFresh(s: FeedState) {
    GroupedIndex(s.calendarDates, CalendarDatesKeys) == Success(s.calendarDatesG)
  }

  predicate IndexesFresh(s: FeedState) {
    TripsIndexFresh(s) && CalendarIndexFresh(s) && CalendarDatesGroupsFresh(s)
  }

  /**
   * What a fresh trips index is: absent exactly when there is no trips table
   * or it is empty, otherwise the trips table keyed by `trip_id`, under which
   * every trip id finds exactly the trips rows carrying it.
   */
  lemma FreshTripsIndex(s: FeedState, id: Cell)
    requires TripsIndexFresh(s)
    ensures s.tripsI.None? <==> s.trips.None? || Empty(s.trips.value)
    ensures s.tripsI.Some? ==>
      && TripKey in s.trips.value.columns
      && s.tripsI.value == SetIndex(s.trips.value, TripKey).value
      && Lookup(s.tripsI.value.entries, id)
         == RowsWhere(s.trips.value.rows, FirstIndex(s.trips.value.columns, TripKey), id)
  {
    if s.tripsI.Some? {
      SetIndexLookup(s.trips.value, TripKey, id);
    }
  }

  /** What a fresh calendar index is: as for trips, keyed by `service_id`. */
  lemma FreshCalendarIndex(s: FeedState, id: Cell)
    requires CalendarIndexFresh(s)
    ensures s.calendarI.None? <==> s.calendar.None? || Empty(s.calendar.value)
    ensures s.calendarI.Some? ==>
      && ServiceKey in s.calendar.value.columns
      && s.calendarI.value == SetIndex(s.calendar.value, ServiceKey).value
      && Lookup(s.calendarI.value.entries, id)
         == RowsWhere(s.calendar.value.rows, FirstIndex(s.calendar.value.columns, ServiceKey), id)
  {
    if s.calendarI.Some? {
      SetIndexLookup(s.calendar.value, ServiceKey, id);
    }
  }

  /**
   * What fresh calendar_dates groups are: absent exactly when there is no
   * calendar_dates table or it is empty; otherwise a (service_id, date) pair
   * has a group exactly when it has no missing cell and some row carries it,
   * and the group is those rows in table order.
   */
  lemma FreshCalendarDatesGroups(s: FeedState, key: seq<Cell>)
    requires CalendarDatesGroupsFresh(s)
    ensures s.calendarDatesG.None? <==> s.calendarDates.None? || Empty(s.calendarDates.value)
    ensures s.calendarDatesG.Some? ==>
      var t := s.calendarDates.value;
      var pos := Positions(t.columns, CalendarDatesKeys);
      var g := s.calendarDatesG.value;
      && g.keys == CalendarDatesKeys
      && (key in g.groups <==> Null !in key && Members(t.rows, pos, key) != [])
      && (key in g.groups ==> g.groups[key] == Members(t.rows, pos, key))
  {
    if s.calendarDatesG.Some? {
      var t := s.calendarDates.value;
      assert MissingKey(t.columns, CalendarDatesKeys).None?;
      GroupRowsExact(t.rows, Positions(t.columns, CalendarDatesKeys), key);
    }
  }

  // ---------------------------------------------------------------------
  // Assignment (the property setters)
  // ---------------------------------------------------------------------

  /**
   * Assigning the distance units: a value outside the allowed set raises and
   * leaves the feed unchanged; an allowed value is stored as given.
   */
  function AssignDistUnits(s: FeedState, val: string): (r: (FeedState, Outcome<FeedError>))
    ensures val in DistUnits ==> r == (s.(distUnits := val), Pass)
    ensures val !in DistUnits ==> r == (s, Fail(InvalidDistUnits(val)))
  {
    if val !in DistUnits then (s, Fail(InvalidDistUnits(val))) else (s.(distUnits := val), Pass)
  }

  /**
   * Assigning table `t`. The value is stored first; for trips, calendar and
   * calendar_dates the index is then rebuilt, which raises a KeyError when a
   * non-empty table lacks its key column, leaving the new table stored and
   * the old index in place.
   */
  function AssignTable(s: FeedState, t: TableName, v: Option<Frame>): (r: (FeedState, Outcome<FeedError>))
  {
    var stored := s.With(t, v);
    match t
    case Trips =>
      (match KeyedIndex(v, TripKey)
       case Success(ix) => (stored.(tripsI := ix), Pass)
       case Failure(c) => (stored, Fail(MissingColumn(Trips, c))))
    case Calendar =>
      (match KeyedIndex(v, ServiceKey)
       case Success(ix) => (stored.(calendarI := ix), Pass)
       case Failure(c) => (stored, Fail(MissingColumn(Calendar, c))))
    case CalendarDates =>
      (match GroupedIndex(v, CalendarDatesKeys)
       case Success(g) => (stored.(calendarDatesG := g), Pass)
       case Failure(c) => (stored, Fail(MissingColumn(CalendarDates, c))))
    case _ => (stored, Pass)
  }

  /** The state whose fields are those of `s` but for the table `t` without an index. */
  lemma StoredPlainTable(s: FeedState, s': FeedState, t: TableName, v: Option<Frame>)
    requires t != Trips && t != Calendar && t != CalendarDates
    requires s'.distUnits == s.distUnits
    requires s'.tripsI == s.tripsI && s'.calendarI == s.calendarI && s'.calendarDatesG == s.calendarDatesG
    requires s'.agency == (if t == Agency then v else s.agency)
    requires s'.stops == (if t == Stops then v else s.stops)
    requires s'.routes == (if t == Routes then v else s.routes)
    requires s'.trips == s.trips && s'.calendar == s.calendar && s'.calendarDates == s.calendarDates
    requires s'.stopTimes == (if t == StopTimes then v else s.stopTimes)
    requires s'.fareAttributes == (if t == FareAttributes then v else s.fareAttributes)
    requires s'.fareRules == (if t == FareRules then v else s.fareRules)
    requires s'.shapes == (if t == Shapes then v else s.shapes)
    requires s'.frequencies == (if t == Frequencies then v else s.frequencies)
    requires s'.transfers == (if t == Transfers then v else s.transfers)
    requires s'.feedInfo == (if t == FeedInfo then v else s.feedInfo)
    ensures s' == s.With(t, v)
  {
    match t
    case Agency => assert s' == s.(agency := v);
    case Stops => assert s' == s.(stops := v);
    case Routes => assert s' == s.(routes := v);
    case StopTimes => assert s' == s.(stopTimes := v);
    case FareAttributes => assert s' == s.(fareAttributes := v);
    case FareRules => assert s' == s.(fareRules := v);
    case Shapes => assert s' == s.(shapes := v);
    case Frequencies => assert s' == s.(frequencies := v);
    case Transfers => assert s' == s.(transfers := v);
    case FeedInfo => assert s' == s.(feedInfo := v);
  }

  /** Assigning a table without an index only stores it. */
  lemma AssignPlainTable(s: FeedState, t: TableName, v: Option<Frame>)
    requires t != Trips && t != Calendar && t != CalendarDates
    ensures AssignTable(s, t, v) == (s.With(t, v), Pass)
  {
  }

  /** Whether building the index that assigning `v` to `t` triggers succeeds. */
  predicate BuildsCleanly(t: TableName, v: Option<Frame>) {
    match t
    case Trips => KeyedIndex(v, TripKey).Success?
    case Calendar => KeyedIndex(v, ServiceKey).Success?
    case CalendarDates => GroupedIndex(v, CalendarDatesKeys).Success?
    case _ => true
  }

  /**
   * An assignment stores its value and changes nothing but that table and,
   * for the three indexed tables, that table's own index; it raises exactly
   * when the index cannot be built, and then the index keeps its old value.
   */
  lemma AssignTableFrame(s: FeedState, t: TableName, v: Option<Frame>)
    ensures var (s', o) := AssignTable(s, t, v);
      && s'.Get(t) == v
      && (forall u :: u != t ==> s'.Get(u) == s.Get(u))
      && s'.distUnits == s.distUnits
      && (o.Pass? <==> BuildsCleanly(t, v))
      && (t != Trips || o.Fail? ==> s'.tripsI == s.tripsI)
      && (t != Calendar || o.Fail? ==> s'.calendarI == s.calendarI)
      && (t != CalendarDates || o.Fail? ==> s'.calendarDatesG == s.calendarDatesG)
  {
  }

  /**
   * After a successful assignment the assigned table's index is fresh, and
   * the other indexes are as fresh as they were.
   */
  lemma AssignTableRefreshes(s: FeedState, t: TableName, v: Option<Frame>)
    requires AssignTable(s, t, v).1.Pass?
    ensures var s' := AssignTable(s, t, v).0;
      && (t == Trips || TripsIndexFresh(s) ==> TripsIndexFresh(s'))
      && (t == Calendar || CalendarIndexFresh(s) ==> CalendarIndexFresh(s'))
      && (t == CalendarDates || CalendarDatesGroupsFresh(s) ==> CalendarDatesGroupsFresh(s'))
  {
  }

  /**
   * Changing the trips table in place, without assigning it, leaves the
   * trips index as it was; it is stale as soon as the new table would index
   * differently. Assigning the table to itself afterwards makes it fresh.
   */
  lemma InPlaceEditLeavesTripsIndexStale(s: FeedState, v: Option<Frame>)
    requires TripsIndexFresh(s)
    requires KeyedIndex(v, TripKey) != KeyedIndex(s.trips, TripKey)
    ensures !TripsIndexFresh(s.With(Trips, v))
    ensures var edited := s.With(Trips, v);
      AssignTable(edited, Trips, edited.trips).1.Pass? ==> TripsIndexFresh(AssignTable(edited, Trips, edited.trips).0)
  {
  }

  // ---------------------------------------------------------------------
  // Equality
  // ---------------------------------------------------------------------

  /** The primary attributes: the units and one slot per table. */
  datatype Attr = DistUnitsAttr | TableAttr(table: TableName)

  function AttrName(a: Attr): string {
    match a
    case DistUnitsAttr => "dist_units"
    case TableAttr(t) => Name(t)
  }

  /**
   * An order in which `__eq__` may walk through the primary attributes: every
   * one of them occurs. The order of the constants module's list is not part
   * of this model, so the comparison takes the order as a parameter.
   */
  predicate IsAttrOrder(attrs: seq<Attr>) {
    DistUnitsAttr in attrs && forall t :: TableAttr(t) in attrs
  }

  /** The first position at which `x` occurs in `attrs`. */
  function FirstPosition(attrs: seq<Attr>, x: Attr): (i: nat)
    requires x in attrs
    ensures i < |attrs| && attrs[i] == x
    ensures forall j :: 0 <= j < i ==> attrs[j] != x
  {
    if attrs[0] == x then 0 else 1 + FirstPosition(attrs[1..], x)
  }

  /** One such order: the units, then the tables in the order the constructor's parameters list them. */
  const PrimaryAttrs: seq<Attr> := [DistUnitsAttr,
    TableAttr(Agency), TableAttr(Stops), TableAttr(Routes), TableAttr(Trips),
    TableAttr(StopTimes), TableAttr(Calendar), TableAttr(CalendarDates), TableAttr(FareAttributes),
    TableAttr(FareRules), TableAttr(Shapes), TableAttr(Frequencies), TableAttr(Transfers),
    TableAttr(FeedInfo)]

  /** What one attribute holds: the units string, no table, or a table. */
  datatype Slot = Units(units: string) | Absent | Present(frame: Frame)

  function SlotOf(s: FeedState, a: Attr): Slot {
    match a
    case DistUnitsAttr => Units(s.distUnits)
    case TableAttr(t) => if s.Get(t).Some? then Present(s.Get(t).value) else Absent
  }

  /**
   * One step of the comparison loop as written: a table in `x` needs a table
   * in `y` that is almost equal; anything else is compared with `!=`, and
   * `None != table` yields a table of booleans whose truth value is
   * ambiguous, so that comparison raises.
   */
  function CompareSlotAsWritten(x: Slot, y: Slot, a: Attr): Result<bool, FeedError> {
    if x.Present? then Success(y.Present? && AlmostEqual(x.frame, y.frame))
    else if y.Present? then Failure(AmbiguousTruthValue(AttrName(a)))
    else Success(x == y)
  }

  /** The comparison loop as written: stops at the first mismatch, or at the first comparison that raises. */
  function FeedsEqualAsWritten(a: FeedState, b: FeedState, attrs: seq<Attr>): Result<bool, FeedError> {
    if attrs == [] then Success(true)
    else match CompareSlotAsWritten(SlotOf(a, attrs[0]), SlotOf(b, attrs[0]), attrs[0])
      case Failure(e) => Failure(e)
      case Success(same) => if !same then Success(false) else FeedsEqualAsWritten(a, b, attrs[1..])
  }

  /** The intended slot comparison: tables almost equal, everything else (including presence) exactly equal. */
  predicate SlotsMatch(x: Slot, y: Slot) {
    if x.Present? then y.Present? && AlmostEqual(x.frame, y.frame) else x == y
  }

  predicate EqualOn(a: FeedState, b: FeedState, attrs: seq<Attr>) {
    forall i :: 0 <= i < |attrs| ==> SlotsMatch(SlotOf(a, attrs[i]), SlotOf(b, attrs[i]))
  }

  /** Feed equality: the same units and, table by table, both absent or both present and almost equal. */
  predicate FeedsEqual(a: FeedState, b: FeedState) {
    a.distUnits == b.distUnits && forall t :: SlotsMatch(SlotOf(a, TableAttr(t)), SlotOf(b, TableAttr(t)))
  }

  lemma PrimaryAttrsIsOrder()
    ensures IsAttrOrder(PrimaryAttrs)
  {
    forall t ensures TableAttr(t) in PrimaryAttrs {
      PrimaryAttrsComplete(t);
    }
  }

  lemma PrimaryAttrsComplete(t: TableName)
    ensures TableAttr(t) in PrimaryAttrs
  {
    match t
    case Agency =>
    case Stops =>
    case Routes =>
    case Trips =>
    case StopTimes =>
    case Calendar =>
    case CalendarDates =>
    case FareAttributes =>
    case FareRules =>
    case Shapes =>
    case Frequencies =>
    case Transfers =>
    case FeedInfo =>
  }

  /** Feed equality spelled out: the units are identical and each table is absent on both sides or almost equal. */
  lemma FeedsEqualMeans(a: FeedState, b: FeedState)
    ensures FeedsEqual(a, b) <==>
      && a.distUnits == b.distUnits
      && forall t :: (a.Get(t).None? <==> b.Get(t).None?)
                     && (a.Get(t).Some? ==> AlmostEqual(a.Get(t).value, b.Get(t).value))
  {
    if FeedsEqual(a, b) {
      forall t ensures (a.Get(t).None? <==> b.Get(t).None?)
                       && (a.Get(t).Some? ==> AlmostEqual(a.Get(t).value, b.Get(t).value)) {
        assert SlotsMatch(SlotOf(a, TableAttr(t)), SlotOf(b, TableAttr(t)));
      }
    } else if a.distUnits == b.distUnits {
      var t :| !SlotsMatch(SlotOf(a, TableAttr(t)), SlotOf(b, TableAttr(t)));
      assert a.Get(t).Some? || b.Get(t).Some?;
    }
  }

  /** Feed equality is the intended comparison over the attributes `__eq__` walks through, in whatever order. */
  lemma FeedsEqualOnAttrs(a: FeedState, b: FeedState, attrs: seq<Attr>)
    requires IsAttrOrder(attrs)
    ensures FeedsEqual(a, b) <==> EqualOn(a, b, attrs)
  {
    if EqualOn(a, b, attrs) {
      forall t ensures SlotsMatch(SlotOf(a, TableAttr(t)), SlotOf(b, TableAttr(t))) {
        assert TableAttr(t) in attrs;
      }
      assert DistUnitsAttr in attrs;
    }
    if FeedsEqual(a, b) {
      forall i | 0 <= i < |attrs| ensures SlotsMatch(SlotOf(a, attrs[i]), SlotOf(b, attrs[i])) {
        var x := attrs[i];
        if x.TableAttr? {
          assert SlotsMatch(SlotOf(a, TableAttr(x.table)), SlotOf(b, TableAttr(x.table)));
        }
      }
    }
  }

  /** Feed equality is an equivalence relation. */
  lemma FeedsEqualIsEquivalence(a: FeedState, b: FeedState, c: FeedState)
    ensures FeedsEqual(a, a)
    ensures FeedsEqual(a, b) ==> FeedsEqual(b, a)
    ensures FeedsEqual(a, b) && FeedsEqual(b, c) ==> FeedsEqual(a, c)
  {
    forall x: Frame, y: Frame, z: Frame ensures AlmostEqual(x, x)
      && (AlmostEqual(x, y) ==> AlmostEqual(y, x))
      && (AlmostEqual(x, y) && AlmostEqual(y, z) ==> AlmostEqual(x, z)) {
      AlmostEqualIsEquivalence(x, y, z);
    }
  }

  /**
   * Where the comparison as written returns, it returns the intended answer;
   * it raises only at an attribute where `a` has no table and `b` has one,
   * and it never raises when the two feeds have tables in the same slots.
   */
  lemma EqualsAsWrittenAgrees(a: FeedState, b: FeedState, attrs: seq<Attr>)
    ensures FeedsEqualAsWritten(a, b, attrs).Success? ==> FeedsEqualAsWritten(a, b, attrs).value == EqualOn(a, b, attrs)
    ensures FeedsEqualAsWritten(a, b, attrs).Failure? ==>
      exists i :: 0 <= i < |attrs| && !SlotOf(a, attrs[i]).Present? && SlotOf(b, attrs[i]).Present?
    ensures (forall i :: 0 <= i < |attrs| ==> (SlotOf(a, attrs[i]).Present? <==> SlotOf(b, attrs[i]).Present?))
      ==> FeedsEqualAsWritten(a, b, attrs).Success?
  {
    AsWrittenValue(a, b, attrs);
    AsWrittenRaises(a, b, attrs);
  }

  lemma {:induction false} AsWrittenValue(a: FeedState, b: FeedState, attrs: seq<Attr>)
    ensures FeedsEqualAsWritten(a, b, attrs).Success? ==> FeedsEqualAsWritten(a, b, attrs).value == EqualOn(a, b, attrs)
  {
    if attrs != [] {
      AsWrittenValue(a, b, attrs[1..]);
      var r := FeedsEqualAsWritten(a, b, attrs);
      if r.Success? && r.value {
        forall i | 0 <= i < |attrs| ensures SlotsMatch(SlotOf(a, attrs[i]), SlotOf(b, attrs[i])) {
          if i > 0 { assert attrs[1..][i - 1] == attrs[i]; }
        }
      }
      if EqualOn(a, b, attrs) {
        assert EqualOn(a, b, attrs[1..]) by {
          forall i | 0 <= i < |attrs[1..]| ensures SlotsMatch(SlotOf(a, attrs[1..][i]), SlotOf(b, attrs[1..][i])) {
            assert attrs[1..][i] == attrs[i + 1];
          }
        }
      }
    }
  }

  lemma {:induction false} AsWrittenRaises(a: FeedState, b: FeedState, attrs: seq<Attr>)
    ensures FeedsEqualAsWritten(a, b, attrs).Failure? ==>
      exists i :: 0 <= i < |attrs| && !SlotOf(a, attrs[i]).Present? && SlotOf(b, attrs[i]).Present?
    ensures (forall i :: 0 <= i < |attrs| ==> (SlotOf(a, attrs[i]).Present? <==> SlotOf(b, attrs[i]).Present?))
      ==> FeedsEqualAsWritten(a, b, attrs).Success?
  {
    if attrs != [] {
      AsWrittenRaises(a, b, attrs[1..]);
      var r := FeedsEqualAsWritten(a, b, attrs);
      if r.Failure? && CompareSlotAsWritten(SlotOf(a, attrs[0]), SlotOf(b, attrs[0]), attrs[0]).Success? {
        var i :| 0 <= i < |attrs[1..]| && !SlotOf(a, attrs[1..][i]).Present? && SlotOf(b, attrs[1..][i]).Present?;
        assert attrs[1..][i] == attrs[i + 1];
      }
      if forall i :: 0 <= i < |attrs| ==> (SlotOf(a, attrs[i]).Present? <==> SlotOf(b, attrs[i]).Present?) {
        assert forall i :: 0 <= i < |attrs[1..]| ==> attrs[1..][i] == attrs[i + 1];
      }
    }
  }

  /**
   * `__eq__` as written, over its attributes: where it returns, it returns
   * whether the feeds are equal; it raises only when some table is absent
   * from the left feed and present in the right one; and it does not raise
   * when the two feeds hold tables in the same slots.
   */
  lemma EqualsAsWrittenOnFeeds(a: FeedState, b: FeedState, attrs: seq<Attr>)
    requires IsAttrOrder(attrs)
    ensures FeedsEqualAsWritten(a, b, attrs).Success? ==>
      FeedsEqualAsWritten(a, b, attrs).value == FeedsEqual(a, b)
    ensures FeedsEqualAsWritten(a, b, attrs).Failure? ==>
      exists t :: a.Get(t).None? && b.Get(t).Some?
    ensures (forall t :: a.Get(t).Some? <==> b.Get(t).Some?) ==> FeedsEqualAsWritten(a, b, attrs).Success?
  {
    EqualsAsWrittenAgrees(a, b, attrs);
    FeedsEqualOnAttrs(a, b, attrs);
    if FeedsEqualAsWritten(a, b, attrs).Failure? {
      var i :| 0 <= i < |attrs| && !SlotOf(a, attrs[i]).Present? && SlotOf(b, attrs[i]).Present?;
      var t := attrs[i].table;
      assert a.Get(t).None? && b.Get(t).Some?;
    }
    if forall t :: a.Get(t).Some? <==> b.Get(t).Some? {
      forall i | 0 <= i < |attrs|
        ensures SlotOf(a, attrs[i]).Present? <==> SlotOf(b, attrs[i]).Present?
      {
        var x := attrs[i];
        if x.TableAttr? {
          assert a.Get(x.table).Some? <==> b.Get(x.table).Some?;
        }
      }
    }
  }

  /** Every slot matches itself. */
  lemma SlotsMatchReflexive(x: Slot)
    ensures SlotsMatch(x, x)
  {
    if x.Present? {
      AlmostEqualIsEquivalence(x.frame, x.frame, x.frame);
    }
  }

  /**
   * When the attributes before position `i` match and at `i` the left feed
   * has no table while the right one has, the comparison as written raises
   * there.
   */
  lemma {:induction false} RaisesAtFirstPresenceMismatch(a: FeedState, b: FeedState, attrs: seq<Attr>, i: nat)
    requires i < |attrs|
    requires forall j :: 0 <= j < i ==> SlotsMatch(SlotOf(a, attrs[j]), SlotOf(b, attrs[j]))
    requires !SlotOf(a, attrs[i]).Present? && SlotOf(b, attrs[i]).Present?
    ensures FeedsEqualAsWritten(a, b, attrs) == Failure(AmbiguousTruthValue(AttrName(attrs[i])))
  {
    if i > 0 {
      assert SlotsMatch(SlotOf(a, attrs[0]), SlotOf(b, attrs[0]));
      assert forall j :: 0 <= j < i - 1 ==> attrs[1..][j] == attrs[j + 1];
      RaisesAtFirstPresenceMismatch(a, b, attrs[1..], i - 1);
    }
  }

  /** A one-row trips table. */
  const SomeTrips: Frame := Table([TripKey], [[Text("t1")]])

  /**
   * The comparison as written is not symmetric: in any order of the
   * attributes, comparing a feed without trips to the same feed with a trips
   * table raises, while comparing them the other way round returns false.
   */
  lemma EqualsAsWrittenRaisesOnMissingTable(s: FeedState, attrs: seq<Attr>)
    requires IsAttrOrder(attrs)
    requires s.trips.None?
    ensures var t := s.With(Trips, Some(SomeTrips));
      && FeedsEqualAsWritten(s, t, attrs) == Failure(AmbiguousTruthValue("trips"))
      && FeedsEqualAsWritten(t, s, attrs) == Success(false)
      && !FeedsEqual(s, t) && !FeedsEqual(t, s)
  {
    var t := s.With(Trips, Some(SomeTrips));
    MissingTripsRaises(s, t, attrs);
    MissingTripsOtherWay(s, t, attrs);
  }

  lemma MissingTripsOtherWay(s: FeedState, t: FeedState, attrs: seq<Attr>)
    requires IsAttrOrder(attrs)
    requires s.trips.None? && t == s.With(Trips, Some(SomeTrips))
    ensures FeedsEqualAsWritten(t, s, attrs) == Success(false)
    ensures !FeedsEqual(s, t) && !FeedsEqual(t, s)
  {
    MissingTripsUnequal(s, t);
    MissingTripsCovered(s, t, attrs);
    FeedsEqualOnAttrs(t, s, attrs);
    AsWrittenFalse(t, s, attrs);
  }

  lemma MissingTripsUnequal(s: FeedState, t: FeedState)
    requires s.trips.None? && t == s.With(Trips, Some(SomeTrips))
    ensures !FeedsEqual(s, t) && !FeedsEqual(t, s)
  {
    assert !SlotsMatch(SlotOf(s, TableAttr(Trips)), SlotOf(t, TableAttr(Trips)));
    assert !SlotsMatch(SlotOf(t, TableAttr(Trips)), SlotOf(s, TableAttr(Trips)));
  }

  lemma MissingTripsCovered(s: FeedState, t: FeedState, attrs: seq<Attr>)
    requires s.trips.None? && t == s.With(Trips, Some(SomeTrips))
    ensures forall i :: 0 <= i < |attrs| ==> (SlotOf(s, attrs[i]).Present? ==> SlotOf(t, attrs[i]).Present?)
  {
    forall i | 0 <= i < |attrs| ensures SlotOf(s, attrs[i]).Present? ==> SlotOf(t, attrs[i]).Present? {
      var x := attrs[i];
      if x.TableAttr? {
        assert s.Get(x.table).Some? ==> t.Get(x.table).Some?;
      }
    }
  }

  /** When every table of `b` is also in `a`, the comparison as written cannot raise, so it returns false on unequal feeds. */
  lemma AsWrittenFalse(a: FeedState, b: FeedState, attrs: seq<Attr>)
    requires forall i :: 0 <= i < |attrs| ==> (SlotOf(b, attrs[i]).Present? ==> SlotOf(a, attrs[i]).Present?)
    requires !EqualOn(a, b, attrs)
    ensures FeedsEqualAsWritten(a, b, attrs) == Success(false)
  {
    AsWrittenValue(a, b, attrs);
    AsWrittenRaises(a, b, attrs);
  }

  /** The slots before the first trips slot are the same on both sides, so the comparison raises at that slot. */
  lemma MissingTripsRaises(s: FeedState, t: FeedState, attrs: seq<Attr>)
    requires IsAttrOrder(attrs)
    requires s.trips.None? && t == s.With(Trips, Some(SomeTrips))
    ensures FeedsEqualAsWritten(s, t, attrs) == Failure(AmbiguousTruthValue("trips"))
  {
    assert TableAttr(Trips) in attrs;
    var i := FirstPosition(attrs, TableAttr(Trips));
    forall j | 0 <= j < i ensures SlotsMatch(SlotOf(s, attrs[j]), SlotOf(t, attrs[j])) {
      SlotsMatchReflexive(SlotOf(s, attrs[j]));
      assert SlotOf(t, attrs[j]) == SlotOf(s, attrs[j]);
    }
    RaisesAtFirstPresenceMismatch(s, t, attrs, i);
  }

  /** Replacing a table by an almost equal one (rows or columns reordered) keeps the feed equal. */
  lemma ReorderedTableKeepsFeedEqual(s: FeedState, t: TableName, u: Frame)
    requires s.Get(t).Some? && AlmostEqual(s.Get(t).value, u)
    ensures FeedsEqual(s, s.With(t, Some(u)))
  {
    var s' := s.With(t, Some(u));
    forall v ensures SlotsMatch(SlotOf(s, TableAttr(v)), SlotOf(s', TableAttr(v))) {
      if v != t {
        SlotsMatchReflexive(SlotOf(s, TableAttr(v)));
      }
    }
  }

  /** In particular, a table whose rows are shuffled, or whose distinct columns are permuted, keeps the feed equal. */
  lemma PermutedTableKeepsFeedEqual(s: FeedState, t: TableName, rows: seq<Row>, p: seq<nat>, q: seq<nat>)
    requires s.Get(t).Some?
    requires multiset(rows) == multiset(s.Get(t).value.rows)
    requires Distinct(s.Get(t).value.columns) && IsPermutation(p, q, |s.Get(t).value.columns|)
    ensures forall r :: r in rows ==> |r| == |s.Get(t).value.columns|
    ensures var shuffled: Frame := Table(s.Get(t).value.columns, rows);
      FeedsEqual(s, s.With(t, Some(shuffled))) && FeedsEqual(s, s.With(t, Some(PermuteColumns(shuffled, p))))
  {
    var f := s.Get(t).value;
    forall r | r in rows ensures |r| == |f.columns| {
      assert r in multiset(f.rows);
    }
    var shuffled: Frame := Table(f.columns, rows);
    RowOrderIrrelevant(f, shuffled);
    ColumnOrderIrrelevant(shuffled, p, q);
    AlmostEqualIsEquivalence(f, shuffled, PermuteColumns(shuffled, p));
    ReorderedTableKeepsFeedEqual(s, t, shuffled);
    ReorderedTableKeepsFeedEqual(s, t, PermuteColumns(shuffled, p));
  }

  // ---------------------------------------------------------------------
  // Copy and construction
  // ---------------------------------------------------------------------

  /** The attributes `copy` transfers: every table and the three indexes (not the units). */
  datatype Key = TableKey(table: TableName) | TripsIndexKey | CalendarIndexKey | CalendarDatesGroupKey

  /** An iteration order of those attributes, as iterating over a set of names yields one. */
  ghost predicate IsCopyOrder(order: seq<Key>) {
    (forall k: Key :: k in order) && Distinct(order)
  }

  /** One transfer: a table goes through its setter; an index is stored as it is. */
  function CopyStep(src: FeedState, dst: FeedState, k: Key): (FeedState, Outcome<FeedError>) {
    match k
    case TableKey(t) => AssignTable(dst, t, src.Get(t))
    case TripsIndexKey => (dst.(tripsI := src.tripsI), Pass)
    case CalendarIndexKey => (dst.(calendarI := src.calendarI), Pass)
    case CalendarDatesGroupKey => (dst.(calendarDatesG := src.calendarDatesG), Pass)
  }

  /** Transferring the attributes `ks` one after another, stopping at the first that raises. */
  function CopyFrom(src: FeedState, dst: FeedState, ks: seq<Key>): Result<FeedState, FeedError> {
    if ks == [] then Success(dst)
    else
      var n := |ks| - 1;
      match CopyFrom(src, dst, ks[..n])
      case Failure(e) => Failure(e)
      case Success(d) =>
        var (d', o) := CopyStep(src, d, ks[n]);
        if o.Fail? then Failure(o.error) else Success(d')
  }

  /** Once a transfer raises, the keys after it change nothing: the copy fails with that error. */
  lemma {:induction false} CopyFailurePersists(src: FeedState, dst: FeedState, ks: seq<Key>, j: nat)
    requires j <= |ks| && CopyFrom(src, dst, ks[..j]).Failure?
    ensures CopyFrom(src, dst, ks) == CopyFrom(src, dst, ks[..j])
  {
    if j < |ks| {
      var n := |ks| - 1;
      assert ks[..n][..j] == ks[..j];
      CopyFailurePersists(src, dst, ks[..n], j);
    } else {
      assert ks[..j] == ks;
    }
  }

  /** A copy: a fresh feed with the same units, then every attribute transferred in `order`. */
  function CopySpec(src: FeedState, order: seq<Key>): Result<FeedState, FeedError> {
    CopyFrom(src, EmptyState(src.distUnits), order)
  }

  /** Whether, of the keys `tk` and `ik`, the one transferred last in `ks` is `ik`. */
  function IndexWrittenLast(ks: seq<Key>, tk: Key, ik: Key): bool {
    if ks == [] then false
    else
      var n := |ks| - 1;
      if ks[n] == ik then true
      else if ks[n] == tk then false
      else IndexWrittenLast(ks[..n], tk, ik)
  }

  lemma {:induction false} IndexWrittenLastIn(ks: seq<Key>, tk: Key, ik: Key)
    ensures IndexWrittenLast(ks, tk, ik) ==> ik in ks
  {
    if ks != [] {
      IndexWrittenLastIn(ks[..|ks| - 1], tk, ik);
    }
  }

  /** An index slot after copying: the original's index if it was written last, the rebuilt one if the table was. */
  predicate CopiedIndex<X(==)>(ks: seq<Key>, tk: Key, ik: Key, got: Option<X>, original: Option<X>, rebuilt: Option<X>) {
    if IndexWrittenLast(ks, tk, ik) then got == original
    else if tk in ks then got == rebuilt
    else got == None
  }

  function RebuiltTripsIndex(s: FeedState): Option<Keyed> {
    var r := KeyedIndex(s.trips, TripKey);
    if r.Success? then r.value else None
  }

  function RebuiltCalendarIndex(s: FeedState): Option<Keyed> {
    var r := KeyedIndex(s.calendar, ServiceKey);
    if r.Success? then r.value else None
  }

  function RebuiltCalendarDatesGroups(s: FeedState): Option<Grouped> {
    var r := GroupedIndex(s.calendarDates, CalendarDatesKeys);
    if r.Success? then r.value else None
  }

  /** Every indexed table among the transferred keys builds its index cleanly. */
  predicate CleanTransfers(src: FeedState, ks: seq<Key>) {
    forall t :: TableKey(t) in ks ==> BuildsCleanly(t, src.Get(t))
  }

  /** The state after transferring `ks` from `src` into an empty feed. */
  predicate CopiedState(src: FeedState, d: FeedState, ks: seq<Key>) {
    && d.distUnits == src.distUnits
    && (forall t :: d.Get(t) == if TableKey(t) in ks then src.Get(t) else None)
    && CopiedIndex(ks, TableKey(Trips), TripsIndexKey, d.tripsI, src.tripsI, RebuiltTripsIndex(src))
    && CopiedIndex(ks, TableKey(Calendar), CalendarIndexKey, d.calendarI, src.calendarI, RebuiltCalendarIndex(src))
    && CopiedIndex(ks, TableKey(CalendarDates), CalendarDatesGroupKey, d.calendarDatesG, src.calendarDatesG, RebuiltCalendarDatesGroups(src))
  }

  lemma CopiedStateStep(src: FeedState, d: FeedState, ks: seq<Key>, k: Key)
    requires CopiedState(src, d, ks)
    requires CopyStep(src, d, k).1.Pass?
    ensures CopiedState(src, CopyStep(src, d, k).0, ks + [k])
  {
    if k.TableKey? {
      CopiedTableStep(src, d, ks, k.table);
    } else {
      CopiedIndexStep(src, d, ks, k);
    }
  }

  lemma CopiedTableStep(src: FeedState, d: FeedState, ks: seq<Key>, t: TableName)
    requires CopiedState(src, d, ks)
    requires AssignTable(d, t, src.Get(t)).1.Pass?
    ensures CopiedState(src, AssignTable(d, t, src.Get(t)).0, ks + [TableKey(t)])
  {
    var ks' := ks + [TableKey(t)];
    var d' := AssignTable(d, t, src.Get(t)).0;
    AssignTableFrame(d, t, src.Get(t));
    forall u ensures d'.Get(u) == if TableKey(u) in ks' then src.Get(u) else None {
      assert TableKey(u) in ks' <==> TableKey(u) in ks || u == t;
    }
    CopiedIndexesAfterTable(src, d, ks, t);
  }

  lemma CopiedIndexesAfterTable(src: FeedState, d: FeedState, ks: seq<Key>, t: TableName)
    requires CopiedState(src, d, ks)
    requires AssignTable(d, t, src.Get(t)).1.Pass?
    ensures var d' := AssignTable(d, t, src.Get(t)).0;
      var ks' := ks + [TableKey(t)];
      && CopiedIndex(ks', TableKey(Trips), TripsIndexKey, d'.tripsI, src.tripsI, RebuiltTripsIndex(src))
      && CopiedIndex(ks', TableKey(Calendar), CalendarIndexKey, d'.calendarI, src.calendarI, RebuiltCalendarIndex(src))
      && CopiedIndex(ks', TableKey(CalendarDates), CalendarDatesGroupKey, d'.calendarDatesG, src.calendarDatesG, RebuiltCalendarDatesGroups(src))
  {
    var d' := AssignTable(d, t, src.Get(t)).0;
    var k := TableKey(t);
    AssignTableFrame(d, t, src.Get(t));
    CopiedIndexAfter(ks, TableKey(Trips), TripsIndexKey, k, d.tripsI, d'.tripsI, src.tripsI, RebuiltTripsIndex(src));
    CopiedIndexAfter(ks, TableKey(Calendar), CalendarIndexKey, k, d.calendarI, d'.calendarI, src.calendarI, RebuiltCalendarIndex(src));
    CopiedIndexAfter(ks, TableKey(CalendarDates), CalendarDatesGroupKey, k, d.calendarDatesG, d'.calendarDatesG,
      src.calendarDatesG, RebuiltCalendarDatesGroups(src));
  }

  /** One more key transferred: an index slot is the original's, the rebuilt one, or unchanged, as that key says. */
  lemma CopiedIndexAfter<X>(ks: seq<Key>, tk: Key, ik: Key, k: Key, got: Option<X>, got': Option<X>, original: Option<X>, rebuilt: Option<X>)
    requires tk != ik && CopiedIndex(ks, tk, ik, got, original, rebuilt)
    requires k == ik ==> got' == original
    requires k == tk ==> got' == rebuilt
    requires k != ik && k != tk ==> got' == got
    ensures CopiedIndex(ks + [k], tk, ik, got', original, rebuilt)
  {
    IndexWrittenLastSnoc(ks, k);
    assert tk in ks + [k] <==> tk in ks || k == tk;
  }

  lemma CopiedIndexStep(src: FeedState, d: FeedState, ks: seq<Key>, k: Key)
    requires CopiedState(src, d, ks) && !k.TableKey?
    ensures CopiedState(src, CopyStep(src, d, k).0, ks + [k])
  {
    var ks' := ks + [k];
    var d' := CopyStep(src, d, k).0;
    IndexUpdateKeepsTables(d, d'.tripsI, d'.calendarI, d'.calendarDatesG);
    assert d' == d.(tripsI := d'.tripsI, calendarI := d'.calendarI, calendarDatesG := d'.calendarDatesG);
    forall u ensures d'.Get(u) == if TableKey(u) in ks' then src.Get(u) else None {
      assert TableKey(u) in ks' <==> TableKey(u) in ks;
    }
    CopiedIndexAfter(ks, TableKey(Trips), TripsIndexKey, k, d.tripsI, d'.tripsI, src.tripsI, RebuiltTripsIndex(src));
    CopiedIndexAfter(ks, TableKey(Calendar), CalendarIndexKey, k, d.calendarI, d'.calendarI, src.calendarI, RebuiltCalendarIndex(src));
    CopiedIndexAfter(ks, TableKey(CalendarDates), CalendarDatesGroupKey, k, d.calendarDatesG, d'.calendarDatesG,
      src.calendarDatesG, RebuiltCalendarDatesGroups(src));
  }

  /** Which of a table and its index was written last, after one more key. */
  lemma IndexWrittenLastSnoc(ks: seq<Key>, k: Key)
    ensures forall tk, ik ::
      IndexWrittenLast(ks + [k], tk, ik) == (if k == ik then true else if k == tk then false else IndexWrittenLast(ks, tk, ik))
  {
    assert (ks + [k])[..|ks|] == ks;
  }

  /** Replacing the indexes leaves every table as it was. */
  lemma IndexUpdateKeepsTables(d: FeedState, tI: Option<Keyed>, cI: Option<Keyed>, cG: Option<Grouped>)
    ensures forall u :: d.(tripsI := tI, calendarI := cI, calendarDatesG := cG).Get(u) == d.Get(u)
  {
  }

  /**
   * Transferring `ks` into an empty feed succeeds exactly when every indexed
   * table among them builds its index cleanly; it then leaves the units and
   * the transferred tables as in the source, the other tables absent, and
   * each index as written last.
   */
  lemma {:induction false} CopyPrefix(src: FeedState, ks: seq<Key>)
    ensures CopyFrom(src, EmptyState(src.distUnits), ks).Success? <==> CleanTransfers(src, ks)
    ensures CopyFrom(src, EmptyState(src.distUnits), ks).Success? ==>
      CopiedState(src, CopyFrom(src, EmptyState(src.distUnits), ks).value, ks)
  {
    var e := EmptyState(src.distUnits);
    if ks != [] {
      var n := |ks| - 1;
      var init := ks[..n];
      assert ks == init + [ks[n]];
      CopyPrefix(src, init);
      var r := CopyFrom(src, e, init);
      assert forall t :: TableKey(t) in ks <==> TableKey(t) in init || ks[n] == TableKey(t);
      if r.Success? {
        var k := ks[n];
        if k.TableKey? {
          AssignTableFrame(r.value, k.table, src.Get(k.table));
        }
        if CopyStep(src, r.value, k).1.Pass? {
          CopiedStateStep(src, r.value, init, k);
        }
      }
    }
  }

  /**
   * A copy with every attribute transferred once: it succeeds exactly when
   * the three indexed tables of the original build their indexes cleanly,
   * and then it has the original's units and tables, so it is equal to the
   * original; each of its indexes is the original's (when that index is
   * transferred after its table) or rebuilt from the table.
   */
  lemma CopyIsEqual(src: FeedState, order: seq<Key>)
    requires IsCopyOrder(order)
    ensures CopySpec(src, order).Success? <==>
      BuildsCleanly(Trips, src.trips) && BuildsCleanly(Calendar, src.calendar)
      && BuildsCleanly(CalendarDates, src.calendarDates)
    ensures CopySpec(src, order).Success? ==>
      var c := CopySpec(src, order).value;
      && c.distUnits == src.distUnits
      && (forall t :: c.Get(t) == src.Get(t))
      && FeedsEqual(src, c)
      && (c.tripsI == src.tripsI || c.tripsI == RebuiltTripsIndex(src))
      && (c.calendarI == src.calendarI || c.calendarI == RebuiltCalendarIndex(src))
      && (c.calendarDatesG == src.calendarDatesG || c.calendarDatesG == RebuiltCalendarDatesGroups(src))
  {
    CopyPrefix(src, order);
    assert TableKey(Trips) in order && TableKey(Calendar) in order && TableKey(CalendarDates) in order;
    if CopySpec(src, order).Success? {
      var c := CopySpec(src, order).value;
      assert forall t :: c.Get(t) == src.Get(t) by {
        forall t ensures c.Get(t) == src.Get(t) {
          assert TableKey(t) in order;
        }
      }
      forall t ensures SlotsMatch(SlotOf(src, TableAttr(t)), SlotOf(c, TableAttr(t))) {
        SlotsMatchReflexive(SlotOf(src, TableAttr(t)));
      }
    }
  }

  /** A copy of a feed whose indexes are fresh is that very feed, indexes included, whatever the order. */
  lemma CopyOfFreshFeedIsIdentical(src: FeedState, order: seq<Key>)
    requires IsCopyOrder(order)
    requires IndexesFresh(src)
    ensures CopySpec(src, order) == Success(src)
  {
    CopyIsEqual(src, order);
    var c := CopySpec(src, order).value;
    StateExtensionality(c, src);
  }

  /** The value of a constructor parameter: the table passed, or None by default. */
  function Argument(tables: map<TableName, Option<Frame>>, t: TableName): Option<Frame> {
    if t in tables then tables[t] else None
  }

  /** The constructor's arguments as a state without indexes. */
  function ArgumentState(units: string, tables: map<TableName, Option<Frame>>): (s: FeedState)
    ensures s.distUnits == units && forall t :: s.Get(t) == Argument(tables, t)
  {
    FeedState(units,
      Argument(tables, Agency), Argument(tables, Stops), Argument(tables, Routes), Argument(tables, Trips),
      Argument(tables, StopTimes), Argument(tables, Calendar), Argument(tables, CalendarDates),
      Argument(tables, FareAttributes), Argument(tables, FareRules), Argument(tables, Shapes),
      Argument(tables, Frequencies), Argument(tables, Transfers), Argument(tables, FeedInfo),
      None, None, None)
  }

  /** The tables as transfer keys, in canonical order. */
  const TableKeys: seq<Key> := [
    TableKey(Agency), TableKey(Stops), TableKey(Routes), TableKey(Trips),
    TableKey(StopTimes), TableKey(Calendar), TableKey(CalendarDates), TableKey(FareAttributes),
    TableKey(FareRules), TableKey(Shapes), TableKey(Frequencies), TableKey(Transfers),
    TableKey(FeedInfo)]

  /**
   * Construction: the units are assigned first and validated; then every
   * table is assigned through its setter in parameter order.
   */
  function InitSpec(units: string, tables: map<TableName, Option<Frame>>): Result<FeedState, FeedError> {
    if units !in DistUnits then Failure(InvalidDistUnits(units))
    else CopyFrom(ArgumentState(units, tables), EmptyState(units), TableKeys)
  }

  lemma TableKeysAreTables()
    ensures forall k :: k in TableKeys ==> k.TableKey?
  {
  }

  lemma TableKeysComplete(t: TableName)
    ensures TableKey(t) in TableKeys
  {
    match t
    case Agency =>
    case Stops =>
    case Routes =>
    case Trips =>
    case StopTimes =>
    case Calendar =>
    case CalendarDates =>
    case FareAttributes =>
    case FareRules =>
    case Shapes =>
    case Frequencies =>
    case Transfers =>
    case FeedInfo =>
  }

  /**
   * Transferring every table and no index into an empty feed: it succeeds
   * exactly when the three indexed tables build cleanly, and then every
   * table is the source's with every index rebuilt from it.
   */
  lemma TransferTablesOnly(src: FeedState, ks: seq<Key>)
    requires forall t :: TableKey(t) in ks
    requires TripsIndexKey !in ks && CalendarIndexKey !in ks && CalendarDatesGroupKey !in ks
    ensures CopyFrom(src, EmptyState(src.distUnits), ks).Success? <==>
      BuildsCleanly(Trips, src.trips) && BuildsCleanly(Calendar, src.calendar)
      && BuildsCleanly(CalendarDates, src.calendarDates)
    ensures CopyFrom(src, EmptyState(src.distUnits), ks).Success? ==>
      var d := CopyFrom(src, EmptyState(src.distUnits), ks).value;
      && d.distUnits == src.distUnits
      && (forall t :: d.Get(t) == src.Get(t))
      && IndexesFresh(d)
  {
    IndexWrittenLastIn(ks, TableKey(Trips), TripsIndexKey);
    IndexWrittenLastIn(ks, TableKey(Calendar), CalendarIndexKey);
    IndexWrittenLastIn(ks, TableKey(CalendarDates), CalendarDatesGroupKey);
    CopyPrefix(src, ks);
    assert TableKey(Trips) in ks && TableKey(Calendar) in ks && TableKey(CalendarDates) in ks;
    if CopyFrom(src, EmptyState(src.distUnits), ks).Success? {
      var d := CopyFrom(src, EmptyState(src.distUnits), ks).value;
      assert d.trips == src.trips && d.calendar == src.calendar && d.calendarDates == src.calendarDates by {
        assert d.Get(Trips) == src.Get(Trips) && d.Get(Calendar) == src.Get(Calendar);
        assert d.Get(CalendarDates) == src.Get(CalendarDates);
      }
    }
  }

  /**
   * Construction succeeds exactly when the units are allowed and the trips,
   * calendar and calendar_dates arguments build their indexes cleanly; the
   * feed then holds every argument as given (absent by default) with all
   * three indexes fresh.
   */
  lemma InitEstablishesInvariant(units: string, tables: map<TableName, Option<Frame>>)
    ensures InitSpec(units, tables).Success? <==>
      && units in DistUnits
      && BuildsCleanly(Trips, Argument(tables, Trips))
      && BuildsCleanly(Calendar, Argument(tables, Calendar))
      && BuildsCleanly(CalendarDates, Argument(tables, CalendarDates))
    ensures units !in DistUnits ==> InitSpec(units, tables) == Failure(InvalidDistUnits(units))
    ensures InitSpec(units, tables).Success? ==>
      var s := InitSpec(units, tables).value;
      && s.distUnits == units
      && (forall t :: s.Get(t) == Argument(tables, t))
      && IndexesFresh(s)
  {
    TableKeysAreTables();
    forall t ensures TableKey(t) in TableKeys {
      TableKeysComplete(t);
    }
    TransferTablesOnly(ArgumentState(units, tables), TableKeys);
  }

  // ---------------------------------------------------------------------
  // The Feed object
  // ---------------------------------------------------------------------

  class Feed {
    var distUnits: string
    var agency: Option<Frame>
    var stops: Option<Frame>
    var routes: Option<Frame>
    var trips: Option<Frame>
    var stopTimes: Option<Frame>
    var calendar: Option<Frame>
    var calendarDates: Option<Frame>
    var fareAttributes: Option<Frame>
    var fareRules: Option<Frame>
    var shapes: Option<Frame>
    var frequencies: Option<Frame>
    var transfers: Option<Frame>
    var feedInfo: Option<Frame>
    var tripsI: Option<Keyed>
    var calendarI: Option<Keyed>
    var calendarDatesG: Option<Grouped>

    /** The units were accepted by the units setter. */
    ghost predicate Valid()
      reads this
    {
      distUnits in DistUnits
    }

    function State(): FeedState
      reads this
    {
      FeedState(distUnits, agency, stops, routes, trips, stopTimes, calendar, calendarDates,
        fareAttributes, fareRules, shapes, frequencies, transfers, feedInfo,
        tripsI, calendarI, calendarDatesG)
    }

    /** A feed with allowed units and no tables, as constructing with units alone gives. */
    constructor (units: string)
      requires units in DistUnits
      ensures Valid() && State() == EmptyState(units)
    {
      distUnits := units;
      agency, stops, routes, trips, stopTimes := None, None, None, None, None;
      calendar, calendarDates, fareAttributes, fareRules := None, None, None, None;
      shapes, frequencies, transfers, feedInfo := None, None, None, None;
      tripsI, calendarI, calendarDatesG := None, None, None;
    }

    /** The `dist_units` setter: raises on a value outside the allowed set, otherwise stores it. */
    method SetDistUnits(val: string) returns (o: Outcome<FeedError>)
      modifies this
      ensures (State(), o) == AssignDistUnits(old(State()), val)
      ensures o.Pass? <==> val in DistUnits
      ensures o.Pass? ==> distUnits == val
      ensures o.Fail? ==> State() == old(State())
      ensures old(Valid()) ==> Valid()
    {
      if val !in DistUnits {
        o := Fail(InvalidDistUnits(val));
      } else {
        distUnits := val;
        o := Pass;
      }
    }

    /** The `trips` setter: stores the table, then rebuilds the trip_id index. */
    method SetTrips(val: Option<Frame>) returns (o: Outcome<FeedError>)
      modifies this
      ensures (State(), o) == AssignTable(old(State()), Trips, val)
      ensures Valid() == old(Valid())
      ensures trips == val
      ensures o.Pass? ==> TripsIndexFresh(State())
      ensures o.Fail? ==> tripsI == old(tripsI)
    {
      trips := val;
      if Indexable(val) {
        var r := SetIndex(val.value, TripKey);
        if r.Failure? {
          return Fail(MissingColumn(Trips, r.error));
        }
        tripsI := Some(r.value);
      } else {
        tripsI := None;
      }
      o := Pass;
    }

    /** The `calendar` setter: stores the table, then rebuilds the service_id index. */
    method SetCalendar(val: Option<Frame>) returns (o: Outcome<FeedError>)
      modifies this
      ensures (State(), o) == AssignTable(old(State()), Calendar, val)
      ensures Valid() == old(Valid())
      ensures calendar == val
      ensures o.Pass? ==> CalendarIndexFresh(State())
      ensures o.Fail? ==> calendarI == old(calendarI)
    {
      calendar := val;
      if Indexable(val) {
        var r := SetIndex(val.value, ServiceKey);
        if r.Failure? {
          return Fail(MissingColumn(Calendar, r.error));
        }
        calendarI := Some(r.value);
      } else {
        calendarI := None;
      }
      o := Pass;
    }

    /** The `calendar_dates` setter: stores the table, then regroups it by (service_id, date). */
    method SetCalendarDates(val: Option<Frame>) returns (o: Outcome<FeedError>)
      modifies this
      ensures (State(), o) == AssignTable(old(State()), CalendarDates, val)
      ensures Valid() == old(Valid())
      ensures calendarDates == val
      ensures o.Pass? ==> CalendarDatesGroupsFresh(State())
      ensures o.Fail? ==> calendarDatesG == old(calendarDatesG)
    {
      calendarDates := val;
      if Indexable(val) {
        var r := GroupBy(val.value, CalendarDatesKeys);
        if r.Failure? {
          return Fail(MissingColumn(CalendarDates, r.error));
        }
        calendarDatesG := Some(r.value);
      } else {
        calendarDatesG := None;
      }
      o := Pass;
    }

    /** Assigning the attribute named by `t` (`setattr`): the three indexed tables go through their setters. */
    method SetTable(t: TableName, val: Option<Frame>) returns (o: Outcome<FeedError>)
      modifies this
      ensures (State(), o) == AssignTable(old(State()), t, val)
      ensures Valid() == old(Valid())
    {
      if t == Trips {
        o := SetTrips(val);
      } else if t == Calendar {
        o := SetCalendar(val);
      } else if t == CalendarDates {
        o := SetCalendarDates(val);
      } else {
        EditInPlace(t, val);
        StoredPlainTable(old(State()), State(), t, val);
        AssignPlainTable(old(State()), t, val);
        o := Pass;
      }
    }

    /**
     * A caller changing the table held under `t` in place (`feed.trips[c] = ...`)
     * rather than assigning it: the table changes, no index does.
     */
    method EditInPlace(t: TableName, val: Option<Frame>)
      modifies this`agency, this`stops, this`routes, this`trips, this`stopTimes, this`calendar, this`calendarDates
      modifies this`fareAttributes, this`fareRules, this`shapes, this`frequencies, this`transfers, this`feedInfo
      ensures agency == if t == Agency then val else old(agency)
      ensures stops == if t == Stops then val else old(stops)
      ensures routes == if t == Routes then val else old(routes)
      ensures trips == if t == Trips then val else old(trips)
      ensures stopTimes == if t == StopTimes then val else old(stopTimes)
      ensures calendar == if t == Calendar then val else old(calendar)
      ensures calendarDates == if t == CalendarDates then val else old(calendarDates)
      ensures fareAttributes == if t == FareAttributes then val else old(fareAttributes)
      ensures fareRules == if t == FareRules then val else old(fareRules)
      ensures shapes == if t == Shapes then val else old(shapes)
      ensures frequencies == if t == Frequencies then val else old(frequencies)
      ensures transfers == if t == Transfers then val else old(transfers)
      ensures feedInfo == if t == FeedInfo then val else old(feedInfo)
    {
      match t
      case Agency => agency := val;
      case Stops => stops := val;
      case Routes => routes := val;
      case Trips => trips := val;
      case StopTimes => stopTimes := val;
      case Calendar => calendar := val;
      case CalendarDates => calendarDates := val;
      case FareAttributes => fareAttributes := val;
      case FareRules => fareRules := val;
      case Shapes => shapes := val;
      case Frequencies => frequencies := val;
      case Transfers => transfers := val;
      case FeedInfo => feedInfo := val;
    }

    /** `__eq__` as written, walking through the attributes in the order `attrs`. */
    function EqualsAsWritten(other: Feed, attrs: seq<Attr>): Result<bool, FeedError>
      reads this, other
    {
      FeedsEqualAsWritten(State(), other.State(), attrs)
    }

    /** `__eq__` as intended: a table present on one side only makes the feeds unequal. */
    predicate Equals(other: Feed)
      reads this, other
    {
      FeedsEqual(State(), other.State())
    }

    /**
     * `copy`: a new feed with the same units, then every attribute of `order`
     * transferred, tables through their setters and indexes as they are.
     */
    method Copy(order: seq<Key>) returns (r: Result<Feed, FeedError>)
      requires Valid()
      ensures r.Success? <==> CopySpec(State(), order).Success?
      ensures r.Success? ==> fresh(r.value) && r.value.Valid() && r.value.State() == CopySpec(State(), order).value
      ensures r.Failure? ==> r.error == CopySpec(State(), order).error
    {
      r := Transfer(State(), order);
    }
  }

  /**
   * A new feed with the units of `src`, into which the attributes `ks` of
   * `src` are transferred one by one; the first transfer that raises aborts.
   */
  method Transfer(src: FeedState, ks: seq<Key>) returns (r: Result<Feed, FeedError>)
    requires src.distUnits in DistUnits
    ensures r.Success? <==> CopyFrom(src, EmptyState(src.distUnits), ks).Success?
    ensures r.Success? ==>
      fresh(r.value) && r.value.Valid() && r.value.State() == CopyFrom(src, EmptyState(src.distUnits), ks).value
    ensures r.Failure? ==> r.error == CopyFrom(src, EmptyState(src.distUnits), ks).error
  {
    var e := EmptyState(src.distUnits);
    var f := new Feed(src.distUnits);
    var i := 0;
    while i < |ks|
      invariant 0 <= i <= |ks|
      invariant fresh(f) && f.Valid()
      invariant CopyFrom(src, e, ks[..i]) == Success(f.State())
    {
      assert ks[..i + 1][..i] == ks[..i];
      match ks[i] {
        case TableKey(t) =>
          var o := f.SetTable(t, src.Get(t));
          if o.Fail? {
            CopyFailurePersists(src, e, ks, i + 1);
            return Failure(o.error);
          }
        case TripsIndexKey => f.tripsI := src.tripsI;
        case CalendarIndexKey => f.calendarI := src.calendarI;
        case CalendarDatesGroupKey => f.calendarDatesG := src.calendarDatesG;
      }
      i := i + 1;
    }
    assert ks[..i] == ks;
    r := Success(f);
  }

  /** Constructing a feed from its units and its tables (absent tables default to None). */
  method NewFeed(units: string, tables: map<TableName, Option<Frame>>) returns (r: Result<Feed, FeedError>)
    ensures r.Success? <==> InitSpec(units, tables).Success?
    ensures r.Success? ==> fresh(r.value) && r.value.Valid() && r.value.State() == InitSpec(units, tables).value
    ensures r.Failure? ==> r.error == InitSpec(units, tables).error
  {
    if units !in DistUnits {
      return Failure(InvalidDistUnits(units));
    }
    r := Transfer(ArgumentState(units, tables), TableKeys);
  }

  /**
   * A copy is independent of its original, whatever the state of its
   * indexes: assigning a table of the copy sets that table of the copy and
   * leaves every attribute of the original as it was.
   */
  method CopyThenAssign(f: Feed, order: seq<Key>, t: TableName, val: Option<Frame>) returns (r: Result<Feed, FeedError>)
    requires f.Valid()
    ensures f.State() == old(f.State())
    ensures r.Success? <==> CopySpec(f.State(), order).Success?
    ensures r.Success? ==> fresh(r.value) && r.value.State().Get(t) == val
  {
    r := f.Copy(order);
    if r.Success? {
      var g := r.value;
      AssignTableFrame(g.State(), t, val);
      var o := g.SetTable(t, val);
    }
  }

}
