/**
 * The decisions `Feed.write` makes: which tables become files and under
 * which names, how cells of integer columns are rendered so that a column
 * of integers with gaps is not printed as floats, and whether the output is
 * a zip archive or a directory. The files themselves, the CSV layout and
 * the archiving are the effects of the program and are not modelled.
 */
module FeedWriter {
  import opened Wrappers
  import opened Tables
  import opened Registry
  import opened FeedErrors
  import opened PathNames
  import opened FeedModel
  import opened Strings

  // ---------------------------------------------------------------------
  // Decimal text of integers (`str(int)` and `int(str)`)
  // ---------------------------------------------------------------------

  predicate IsDigit(c: char) {
    '0' <= c <= '9'
  }

  predicate AllDigits(s: string) {
    forall i :: 0 <= i < |s| ==> IsDigit(s[i])
  }

  function DigitChar(d: nat): (c: char)
    requires d < 10
    ensures IsDigit(c)
  {
    ('0' as int + d) as char
  }

  function DigitValue(c: char): (d: nat)
    requires IsDigit(c)
    ensures d < 10
  {
    c as int - '0' as int
  }

  /** The decimal digits of `n`, without leading zeros. */
  function Digits(n: nat): (s: string)
    ensures s != [] && AllDigits(s)
  {
    if n < 10 then [DigitChar(n)] else Digits(n / 10) + [DigitChar(n % 10)]
  }

  /** The value of a string of decimal digits. */
  function DigitsValue(s: string): nat
    requires AllDigits(s)
  {
    if s == [] then 0 else 10 * DigitsValue(s[..|s| - 1]) + DigitValue(s[|s| - 1])
  }

  lemma {:induction false} DigitsRoundTrip(n: nat)
    ensures DigitsValue(Digits(n)) == n
  {
    var s := Digits(n);
    assert s[|s| - 1] == DigitChar(n % 10);
    if n >= 10 {
      assert s[..|s| - 1] == Digits(n / 10);
      DigitsRoundTrip(n / 10);
    }
  }

  /** `str(n)`: an optional minus sign followed by the digits. */
  function Decimal(n: int): string {
    if n < 0 then "-" + Digits(-n) else Digits(n)
  }

  /** The characters of `s` without the underscores. */
  function DropUnderscores(s: string): (r: string)
    ensures (forall k :: 0 <= k < |s| ==> IsDigit(s[k]) || s[k] == '_') ==> AllDigits(r)
    ensures AllDigits(s) ==> r == s
  {
    if s == [] then []
    else
      var n := |s| - 1;
      DropUnderscores(s[..n]) + (if s[n] == '_' then [] else [s[n]])
  }

  /** Digits that single underscores may group: "1_000", but neither "_1", "1_" nor "1__0". */
  predicate GroupedDigits(s: string) {
    && s != [] && IsDigit(s[0]) && IsDigit(s[|s| - 1])
    && (forall k :: 0 <= k < |s| ==> IsDigit(s[k]) || s[k] == '_')
    && (forall k :: 0 <= k < |s| - 1 && s[k] == '_' ==> IsDigit(s[k + 1]))
  }

  /** Grouped digits without a sign, read as a number. */
  function ParseUnsigned(body: string): Option<nat> {
    if GroupedDigits(body) then Some(DigitsValue(DropUnderscores(body))) else None
  }

  /** An optional sign followed by grouped digits. */
  function ParseSigned(b: string): Option<int> {
    if b != [] && b[0] == '-' then
      match ParseUnsigned(b[1..])
      case None => None
      case Some(v) => Some(-(v as int))
    else if b != [] && b[0] == '+' then
      match ParseUnsigned(b[1..])
      case None => None
      case Some(v) => Some(v as int)
    else
      match ParseUnsigned(b)
      case None => None
      case Some(v) => Some(v as int)
  }

  /**
   * `int(s)` on text, in base 10: whitespace around the number is ignored,
   * then an optional sign and digits, which single underscores may group;
   * anything else is a ValueError.
   */
  function ParseInt(s: string): Option<int> {
    ParseSigned(Strip(s))
  }

  /** Digits without underscores are grouped digits, read as their value. */
  lemma UnsignedDigits(ds: string)
    requires ds != [] && AllDigits(ds)
    ensures ParseUnsigned(ds) == Some(DigitsValue(ds))
  {
    assert GroupedDigits(ds);
    assert DropUnderscores(ds) == ds;
  }

  /** A run of digits reads back as its value `v`. */
  lemma ParseDigits(ds: string, v: nat)
    requires ds != [] && AllDigits(ds) && DigitsValue(ds) == v
    ensures ParseInt(ds) == Some(v)
  {
    assert Strip(ds) == ds by {
      StripFixed(ds);
    }
    UnsignedDigits(ds);
    assert IsDigit(ds[0]);
  }

  /** A run of digits of value `v` after a minus sign reads back as `-v`. */
  lemma ParseNegatedDigits(ds: string, v: nat)
    requires ds != [] && AllDigits(ds) && DigitsValue(ds) == v
    ensures ParseInt("-" + ds) == Some(-(v as int))
  {
    StripNegated(ds);
    UnsignedDigits(ds);
    NegatedUnsigned(ds, v);
  }

  /** A minus sign followed by digits carries no surrounding whitespace. */
  lemma StripNegated(ds: string)
    requires ds != [] && AllDigits(ds)
    ensures Strip("-" + ds) == "-" + ds
  {
    var d := "-" + ds;
    assert d[|d| - 1] == ds[|ds| - 1];
    StripFixed(d);
  }

  /** A minus sign before text that reads as `v` reads as `-v`. */
  lemma NegatedUnsigned(body: string, v: nat)
    requires ParseUnsigned(body) == Some(v) && Strip("-" + body) == "-" + body
    ensures ParseInt("-" + body) == Some(-(v as int))
  {
    assert ("-" + body)[1..] == body;
  }

  /** A run of digits of value `v`, with or without a minus sign in front, reads back as its value. */
  lemma ParseSignedDigits(neg: bool, ds: string, v: nat)
    requires ds != [] && AllDigits(ds) && DigitsValue(ds) == v
    ensures ParseInt((if neg then "-" else "") + ds) == Some(if neg then -(v as int) else v as int)
  {
    if neg {
      ParseNegatedDigits(ds, v);
    } else {
      ParseDigits(ds, v);
      assert "" + ds == ds;
    }
  }

  /** Decimal text reads back as the integer it was printed from, and never contains a decimal point. */
  lemma DecimalRoundTrip(n: int)
    ensures ParseInt(Decimal(n)) == Some(n)
    ensures '.' !in Decimal(n)
  {
    var m := if n < 0 then -n else n;
    DigitsRoundTrip(m);
    ParseSignedDigits(n < 0, Digits(m), m);
    assert Decimal(n) == (if n < 0 then "-" else "") + Digits(m);
  }

  /** Only -1 prints as "-1". */
  lemma DecimalMinusOne(n: int)
    ensures Decimal(n) == "-1" <==> n == -1
  {
    if n >= 0 {
      assert IsDigit(Decimal(n)[0]);
    } else {
      var m := -n;
      assert Decimal(n) == "-" + Digits(m);
      if Decimal(n) == "-1" {
        assert Digits(m) == "1" by {
          assert ("-" + Digits(m))[1..] == Digits(m);
          assert "-1"[1..] == "1";
        }
        DigitsRoundTrip(m);
        assert DigitsValue("1") == 1 by {
          assert "1"[..0] == "";
        }
      }
      if n == -1 {
        assert Digits(1) == "1";
      }
    }
  }

  // ---------------------------------------------------------------------
  // Cells of integer columns
  // ---------------------------------------------------------------------

  /** The integer a cell denotes, if any: missing cells denote none, text is read as `int(text)`. */
  function CellInt(c: Cell): Option<int> {
    match c
    case Null => None
    case Int(n) => Some(n)
    case Text(s) => ParseInt(s)
  }

  /** `astype(int)` yields 64-bit integers: a value outside their range raises OverflowError. */
  predicate FitsInt64(n: int) {
    -0x8000_0000_0000_0000 <= n <= 0x7FFF_FFFF_FFFF_FFFF
  }

  /**
   * One cell of an integer column on output: missing cells are filled with
   * -1, the cell is cast to a 64-bit integer (which fails on text that is
   * not an integer and on values out of range), printed, and a printed "-1"
   * is replaced by the empty string.
   */
  function RenderIntCell(c: Cell): Option<Cell> {
    var filled := if c == Null then Int(-1) else c;
    match CellInt(filled)
    case None => None
    case Some(n) =>
      if !FitsInt64(n) then None
      else
        var printed := Decimal(n);
        Some(Text(if printed == "-1" then "" else printed))
  }

  /**
   * What rendering means: it fails exactly on text that is not an integer
   * and on integers out of the 64-bit range; it yields the empty string
   * exactly for a missing cell and for a genuine -1; any other integer is
   * printed as text that reads back as that integer and carries no
   * decimal point.
   */
  lemma RenderIntCellMeaning(c: Cell)
    ensures RenderIntCell(c).None? <==>
      (c.Text? && ParseInt(c.s).None?) || (CellInt(c).Some? && !FitsInt64(CellInt(c).value))
    ensures RenderIntCell(c).Some? ==> RenderIntCell(c).value.Text? && '.' !in RenderIntCell(c).value.s
    ensures RenderIntCell(c) == Some(Text("")) <==> c == Null || CellInt(c) == Some(-1)
    ensures RenderIntCell(c).Some? && c != Null && CellInt(c) != Some(-1) ==>
      ParseInt(RenderIntCell(c).value.s) == CellInt(c)
  {
    var filled := if c == Null then Int(-1) else c;
    if CellInt(filled).Some? {
      var n := CellInt(filled).value;
      DecimalRoundTrip(n);
      DecimalMinusOne(n);
      assert Digits(0) == "0";
    }
  }

  /** Text that reads as an integer in the 64-bit range other than -1 is written as its decimal form. */
  lemma RenderedText(s: string, n: nat)
    requires ParseInt(s) == Some(n) && n <= 0x7FFF_FFFF_FFFF_FFFF
    ensures RenderIntCell(Text(s)) == Some(Text(Digits(n)))
  {
    assert CellInt(Text(s)) == Some(n);
    assert Decimal(n) == Digits(n) && IsDigit(Digits(n)[0]);
  }

  /** Text that `int` rejects cannot be cast. */
  lemma RejectedText(s: string)
    requires ParseInt(s).None?
    ensures RenderIntCell(Text(s)).None?
  {
    assert CellInt(Text(s)).None?;
  }

  lemma StripSpaced()
    ensures Strip(" 7") == "7"
  {
    assert LeadingEnd(" 7", 0) == 1;
    assert TrailingStart(" 7", 1, 2) == 2;
  }

  lemma ParseSpaced()
    ensures ParseInt(" 7") == Some(7)
  {
    StripSpaced();
    assert ParseUnsigned("7") == Some(7) by {
      UnsignedDigits("7");
      assert "7"[..0] == "";
    }
  }

  /** Whitespace around a number is ignored, as `int` ignores it. */
  lemma SpacedText()
    ensures RenderIntCell(Text(" 7")) == Some(Text("7"))
  {
    ParseSpaced();
    RenderedText(" 7", 7);
    assert Digits(7) == "7";
  }

  lemma DropGrouped()
    ensures DropUnderscores("1_0") == "10"
  {
    assert "1_0"[..2] == "1_" && "1_"[..1] == "1";
    assert DropUnderscores("1") == "1";
  }

  lemma ParseGrouped()
    ensures ParseInt("1_0") == Some(10)
  {
    assert Strip("1_0") == "1_0" by {
      StripFixed("1_0");
    }
    assert GroupedDigits("1_0");
    DropGrouped();
    TenValue();
    UngroupedValue("1_0", "10", 10);
  }

  lemma TenValue()
    ensures DigitsValue("10") == 10
  {
    assert "10"[..1] == "1";
  }

  /** Unsigned text whose digits, once ungrouped, have value `v` reads as `v`. */
  lemma UngroupedValue(b: string, ds: string, v: nat)
    requires Strip(b) == b && GroupedDigits(b) && DropUnderscores(b) == ds
    requires AllDigits(ds) && DigitsValue(ds) == v
    ensures ParseInt(b) == Some(v)
  {
    assert IsDigit(b[0]);
  }

  /** Underscores between digits are accepted, as `int` accepts them. */
  lemma GroupedText()
    ensures RenderIntCell(Text("1_0")) == Some(Text("10"))
  {
    ParseGrouped();
    RenderedText("1_0", 10);
    assert Digits(10) == "10" by {
      assert Digits(1) == "1" && Digits(0) == "0";
    }
  }

  lemma ParseDoubleUnderscore()
    ensures ParseInt("1__0").None?
  {
    assert Strip("1__0") == "1__0" by {
      StripFixed("1__0");
    }
    assert !GroupedDigits("1__0") by {
      assert "1__0"[1] == '_' && !IsDigit("1__0"[2]);
    }
  }

  lemma ParseInnerBlank()
    ensures ParseInt("- 5").None?
  {
    assert Strip("- 5") == "- 5" by {
      StripFixed("- 5");
    }
    assert "- 5"[1..] == " 5";
    assert !GroupedDigits(" 5") by {
      assert !IsDigit(" 5"[0]);
    }
  }

  lemma ParseDecimalPoint()
    ensures ParseInt("7.0").None?
  {
    assert Strip("7.0") == "7.0" by {
      StripFixed("7.0");
    }
    assert !GroupedDigits("7.0") by {
      assert !IsDigit("7.0"[1]) && "7.0"[1] != '_';
    }
  }

  /** Misplaced underscores, inner blanks, decimal points and 64-bit overflow all make the cast fail. */
  lemma RejectedCells()
    ensures RenderIntCell(Text("1__0")).None?
    ensures RenderIntCell(Text("- 5")).None?
    ensures RenderIntCell(Text("7.0")).None?
    ensures RenderIntCell(Int(0x8000_0000_0000_0000)).None?
  {
    ParseDoubleUnderscore();
    RejectedText("1__0");
    ParseInnerBlank();
    RejectedText("- 5");
    ParseDecimalPoint();
    RejectedText("7.0");
  }

  // ---------------------------------------------------------------------
  // Integer columns of one table
  // ---------------------------------------------------------------------

  /** Column `j` is an integer column holding a cell that cannot be cast. */
  predicate CastFails(t: Frame, intCols: set<string>, j: nat)
    requires j < |t.columns|
  {
    t.columns[j] in intCols && exists i :: 0 <= i < |t.rows| && RenderIntCell(t.rows[i][j]).None?
  }

  /** The first position from `from` on whose column cannot be cast. */
  function FirstCastFailure(t: Frame, intCols: set<string>, from: nat): (k: Option<nat>)
    requires from <= |t.columns|
    ensures k.None? <==> forall j :: from <= j < |t.columns| ==> !CastFails(t, intCols, j)
    ensures k.Some? ==>
      && from <= k.value < |t.columns| && CastFails(t, intCols, k.value)
      && forall j :: from <= j < k.value ==> !CastFails(t, intCols, j)
    decreases |t.columns| - from
  {
    if from == |t.columns| then None
    else if CastFails(t, intCols, from) then Some(from)
    else FirstCastFailure(t, intCols, from + 1)
  }

  /** A cell as written: rendered when its column is an integer column, otherwise as it is. */
  function OutputCell(col: string, c: Cell, intCols: set<string>): Cell {
    if col in intCols && RenderIntCell(c).Some? then RenderIntCell(c).value else c
  }

  /** The rows with the integer columns before position `upTo` rendered. */
  function RenderedRows(t: Frame, intCols: set<string>, upTo: nat): (rows: seq<Row>)
    ensures |rows| == |t.rows|
    ensures forall i :: 0 <= i < |rows| ==> |rows[i]| == |t.columns|
  {
    seq(|t.rows|, i requires 0 <= i < |t.rows| =>
      seq(|t.columns|, j requires 0 <= j < |t.columns| =>
        if j < upTo then OutputCell(t.columns[j], t.rows[i][j], intCols) else t.rows[i][j]))
  }

  lemma RenderedRowsNone(t: Frame, intCols: set<string>)
    ensures RenderedRows(t, intCols, 0) == t.rows
  {
    forall i | 0 <= i < |t.rows| ensures RenderedRows(t, intCols, 0)[i] == t.rows[i] {
    }
  }

  /** A column that is not an integer column is written as it is. */
  lemma RenderedRowsSkip(t: Frame, intCols: set<string>, j: nat)
    requires j < |t.columns| && t.columns[j] !in intCols
    ensures RenderedRows(t, intCols, j) == RenderedRows(t, intCols, j + 1)
  {
    forall i | 0 <= i < |t.rows| ensures RenderedRows(t, intCols, j)[i] == RenderedRows(t, intCols, j + 1)[i] {
    }
  }

  /**
   * The integer columns of a table prepared for output: the first column
   * (by position) that cannot be cast raises; otherwise every cell of every
   * integer column is rendered and all other cells stay as they are.
   */
  function RenderIntColumns(t: Frame, table: TableName, intCols: set<string>): Result<Frame, FeedError> {
    match FirstCastFailure(t, intCols, 0)
    case Some(j) => Failure(IntCastFailure(table, t.columns[j]))
    case None => Success(Table(t.columns, RenderedRows(t, intCols, |t.columns|)))
  }

  /**
   * Preparing a table, whatever its number of rows and columns: it fails
   * exactly when some integer column holds a cell that cannot be cast,
   * naming such a column; otherwise the columns
   * are unchanged, cells outside integer columns are unchanged, and a cell
   * of an integer column is blank exactly when it was missing or -1.
   */
  lemma RenderIntColumnsMeaning(t: Frame, table: TableName, intCols: set<string>)
    ensures RenderIntColumns(t, table, intCols).Failure? <==>
      exists k :: 0 <= k < |t.columns| && CastFails(t, intCols, k)
    ensures RenderIntColumns(t, table, intCols).Failure? ==>
      var e := RenderIntColumns(t, table, intCols).error;
      && e.IntCastFailure? && e.table == table
      && exists k :: 0 <= k < |t.columns| && CastFails(t, intCols, k) && t.columns[k] == e.column
    ensures RenderIntColumns(t, table, intCols).Success? ==>
      var u := RenderIntColumns(t, table, intCols).value;
      && u.columns == t.columns && |u.rows| == |t.rows|
      && forall i, j | 0 <= i < |t.rows| && 0 <= j < |t.columns| ::
           && (t.columns[j] !in intCols ==> u.rows[i][j] == t.rows[i][j])
           && (t.columns[j] in intCols ==>
                 && RenderIntCell(t.rows[i][j]).Some?
                 && u.rows[i][j] == RenderIntCell(t.rows[i][j]).value
                 && (u.rows[i][j] == Text("") <==> t.rows[i][j] == Null || CellInt(t.rows[i][j]) == Some(-1)))
  {
    if RenderIntColumns(t, table, intCols).Success? {
      var u := RenderIntColumns(t, table, intCols).value;
      forall i, j | 0 <= i < |t.rows| && 0 <= j < |t.columns|
        ensures && (t.columns[j] !in intCols ==> u.rows[i][j] == t.rows[i][j])
                && (t.columns[j] in intCols ==>
                      && RenderIntCell(t.rows[i][j]).Some?
                      && u.rows[i][j] == RenderIntCell(t.rows[i][j]).value
                      && (u.rows[i][j] == Text("") <==> t.rows[i][j] == Null || CellInt(t.rows[i][j]) == Some(-1)))
      {
        RenderIntCellMeaning(t.rows[i][j]);
        if t.columns[j] in intCols {
          assert !CastFails(t, intCols, j);
        }
      }
    }
  }

  /**
   * The writer's loop over the integer columns of a table: each one is
   * filled, cast, printed and blanked where it printed as -1, one column
   * after another, and the first that cannot be cast raises.
   */
  method CoerceIntColumns(t: Frame, table: TableName, intCols: set<string>) returns (r: Result<Frame, FeedError>)
    ensures r == RenderIntColumns(t, table, intCols)
  {
    var rows := t.rows;
    RenderedRowsNone(t, intCols);
    var j := 0;
    while j < |t.columns|
      invariant 0 <= j <= |t.columns|
      invariant rows == RenderedRows(t, intCols, j)
      invariant FirstCastFailure(t, intCols, 0) == FirstCastFailure(t, intCols, j)
    {
      if t.columns[j] in intCols {
        if CastFails(t, intCols, j) {
          return Failure(IntCastFailure(table, t.columns[j]));
        }
        rows := CoerceColumn(t, intCols, j, rows);
      } else {
        RenderedRowsSkip(t, intCols, j);
      }
      j := j + 1;
    }
    r := Success(Table(t.columns, rows));
  }

  /** Rendering every cell of the integer column at position `j`, row after row. */
  method CoerceColumn(t: Frame, intCols: set<string>, j: nat, rows0: seq<Row>) returns (rows: seq<Row>)
    requires j < |t.columns| && t.columns[j] in intCols && !CastFails(t, intCols, j)
    requires rows0 == RenderedRows(t, intCols, j)
    ensures rows == RenderedRows(t, intCols, j + 1)
  {
    rows := rows0;
    var i := 0;
    while i < |rows|
      invariant 0 <= i <= |rows| == |t.rows|
      invariant forall k :: 0 <= k < |rows| ==> |rows[k]| == |t.columns|
      invariant forall k :: 0 <= k < i ==> rows[k] == RenderedRows(t, intCols, j + 1)[k]
      invariant forall k :: i <= k < |rows| ==> rows[k] == rows0[k]
    {
      rows := rows[i := rows[i][j := RenderIntCell(t.rows[i][j]).value]];
      i := i + 1;
    }
  }

  // ---------------------------------------------------------------------
  // The tables written
  // ---------------------------------------------------------------------

  /** One output file: which table, under which file name, with what content. */
  datatype OutFile = OutFile(table: TableName, name: string, content: Frame)

  /** The tables of `ts`, in order, that the feed holds. */
  function Present(s: FeedState, ts: seq<TableName>): (p: seq<TableName>)
    ensures |p| <= |ts|
    ensures forall t :: t in p <==> t in ts && s.Get(t).Some?
  {
    if ts == [] then []
    else
      var n := |ts| - 1;
      Present(s, ts[..n]) + (if s.Get(ts[n]).Some? then [ts[n]] else [])
  }

  /**
   * The files written for the tables `ts`, in order, absent tables skipped,
   * together with the error that stopped the loop, if any; the files
   * before that error have been written.
   */
  function WriteTables(s: FeedState, ts: seq<TableName>, intCols: set<string>): (seq<OutFile>, Option<FeedError>) {
    if ts == [] then ([], None)
    else
      var n := |ts| - 1;
      WriteStep(s, ts[n], intCols, WriteTables(s, ts[..n], intCols))
  }

  /** One turn of the loop: after an error nothing more happens; an absent table is skipped. */
  function WriteStep(s: FeedState, t: TableName, intCols: set<string>, acc: (seq<OutFile>, Option<FeedError>)): (seq<OutFile>, Option<FeedError>) {
    var (done, err) := acc;
    if err.Some? then acc
    else match s.Get(t)
      case None => (done, None)
      case Some(f) =>
        match RenderIntColumns(f, t, intCols)
        case Failure(e) => (done, Some(e))
        case Success(u) => (done + [OutFile(t, FileName(t), u)], None)
  }

  /** The file for a present table `t`: `<table>.txt` holding the prepared table, or the error preparing it. */
  function FileFor(s: FeedState, t: TableName, intCols: set<string>): Result<OutFile, FeedError>
    requires s.Get(t).Some?
  {
    match RenderIntColumns(s.Get(t).value, t, intCols)
    case Failure(e) => Failure(e)
    case Success(u) => Success(OutFile(t, FileName(t), u))
  }

  /**
   * Writing the tables `ts`: the files are those of the present tables, in
   * order, and nothing else; when preparing one of them fails, the files of
   * the present tables before it are written, and that failure is the error.
   */
  lemma {:induction false} WriteTablesExact(s: FeedState, ts: seq<TableName>, intCols: set<string>)
    ensures var (done, err) := WriteTables(s, ts, intCols);
      var p := Present(s, ts);
      && |done| <= |p|
      && (forall k :: 0 <= k < |done| ==> FileFor(s, p[k], intCols) == Success(done[k]))
      && (err.None? ==> |done| == |p|)
      && (err.Some? ==> |done| < |p| && FileFor(s, p[|done|], intCols) == Failure(err.value))
  {
    WrittenForPresent(s, ts, intCols);
  }

  lemma {:induction false} WrittenForPresent(s: FeedState, ts: seq<TableName>, intCols: set<string>)
    ensures WrittenFor(s, WriteTables(s, ts, intCols), Present(s, ts), intCols)
  {
    if ts != [] {
      var n := |ts| - 1;
      WrittenForPresent(s, ts[..n], intCols);
      WriteStepExact(s, ts[n], intCols, WriteTables(s, ts[..n], intCols), Present(s, ts[..n]));
    }
  }

  /** One more table keeps the correspondence between the files written and the present tables. */
  lemma WriteStepExact(s: FeedState, t: TableName, intCols: set<string>, acc: (seq<OutFile>, Option<FeedError>), p: seq<TableName>)
    requires WrittenFor(s, acc, p, intCols)
    ensures WrittenFor(s, WriteStep(s, t, intCols, acc), p + (if s.Get(t).Some? then [t] else []), intCols)
  {
    var p' := p + (if s.Get(t).Some? then [t] else []);
    assert forall k :: 0 <= k < |p| ==> p'[k] == p[k];
  }

  /** The files `acc` are those of the tables `p`, in order, up to the error, if any. */
  predicate WrittenFor(s: FeedState, acc: (seq<OutFile>, Option<FeedError>), p: seq<TableName>, intCols: set<string>) {
    var (done, err) := acc;
    && (forall k :: 0 <= k < |p| ==> s.Get(p[k]).Some?)
    && |done| <= |p|
    && (forall k :: 0 <= k < |done| ==> FileFor(s, p[k], intCols) == Success(done[k]))
    && (err.None? ==> |done| == |p|)
    && (err.Some? ==> |done| < |p| && FileFor(s, p[|done|], intCols) == Failure(err.value))
  }

  /** Every present table is written exactly when none of them fails to prepare. */
  lemma WriteTablesSucceeds(s: FeedState, ts: seq<TableName>, intCols: set<string>)
    ensures WriteTables(s, ts, intCols).1.None? <==>
      forall k :: 0 <= k < |Present(s, ts)| ==> FileFor(s, Present(s, ts)[k], intCols).Success?
  {
    WriteTablesExact(s, ts, intCols);
    var (done, err) := WriteTables(s, ts, intCols);
    var p := Present(s, ts);
    if err.Some? {
      assert FileFor(s, p[|done|], intCols).Failure?;
    }
  }

  /** Once preparing a table fails, later tables change nothing. */
  lemma {:induction false} WriteFailurePersists(s: FeedState, ts: seq<TableName>, intCols: set<string>, j: nat)
    requires j <= |ts| && WriteTables(s, ts[..j], intCols).1.Some?
    ensures WriteTables(s, ts, intCols) == WriteTables(s, ts[..j], intCols)
  {
    if j < |ts| {
      var n := |ts| - 1;
      assert ts[..n][..j] == ts[..j];
      WriteFailurePersists(s, ts[..n], intCols, j);
      assert WriteTables(s, ts, intCols) == WriteStep(s, ts[n], intCols, WriteTables(s, ts[..n], intCols));
    } else {
      assert ts[..j] == ts;
    }
  }

  // ---------------------------------------------------------------------
  // Feed.write
  // ---------------------------------------------------------------------

  /**
   * What writing a feed does: zips when the path's suffix is ".zip", else
   * writes into the directory at `path`, creating it if it does not exist;
   * the files are written as `WriteTables` says, and the archive is made
   * (and the temporary directory removed) only when every table was written.
   */
  datatype WriteReport = WriteReport(
    zipped: bool,
    createdDirectory: bool,
    written: seq<OutFile>,
    error: Option<FeedError>,
    archived: bool)

  /** Whether `write` produces a zip archive for `path`. */
  predicate ZipMode(path: string) {
    Suffix(FinalName(path)) == ".zip"
  }

  function WriteSpec(s: FeedState, path: string, pathExists: bool, intCols: set<string>): WriteReport {
    var zipped := ZipMode(path);
    var (done, err) := WriteTables(s, TableOrder, intCols);
    WriteReport(zipped, !zipped && !pathExists, done, err, zipped && err.None?)
  }

  /**
   * Zip mode is chosen exactly when the final component of the path ends in
   * ".zip" with at least one character before it, once the path is
   * normalised; so "feed.zip", "out/feed.tar.zip" and "feed.zip/." are
   * zipped, while ".zip", "feed.ZIP" and "feed.zip.d" are not.
   */
  lemma ZipModeExactly(path: string)
    ensures var name := FinalName(path);
      ZipMode(path) <==> |name| > 4 && name[|name| - 4..] == ".zip"
  {
    ZipSuffix(FinalName(path));
  }

  /** A name has the suffix ".zip" exactly when it ends in ".zip" after at least one character. */
  lemma ZipSuffix(name: string)
    ensures Suffix(name) == ".zip" <==> |name| > 4 && name[|name| - 4..] == ".zip"
  {
    assert ".zip"[1..] == "zip";
    SuffixExactly(name, ".zip");
  }

  /** A path whose last component is "." names the directory before it: `<base>.zip/.` is zipped. */
  lemma TrailingDotZipped(base: string)
    requires base != [] && '/' !in base
    ensures ZipMode(base + ".zip/.")
  {
    var dir := base + ".zip";
    assert IsExtension(".zip") by {
      assert ".zip"[1..] == "zip";
    }
    assert '/' !in dir by {
      assert forall k :: 0 <= k < |dir| ==> dir[k] == if k < |base| then base[k] else ".zip"[k - |base|];
    }
    assert base + ".zip/." == dir + "/.";
    TrailingDotDropped(dir);
    JoinedName(base, ".zip");
  }

  /**
   * `Feed.write`: decide the output mode, then prepare and write every
   * present table in canonical order.
   */
  method Write(feed: Feed, path: string, pathExists: bool, intCols: set<string>) returns (report: WriteReport)
    ensures report == WriteSpec(feed.State(), path, pathExists, intCols)
  {
    var zipped := ZipMode(path);
    var done, err := WriteEach(feed.State(), TableOrder, intCols);
    report := WriteReport(zipped, !zipped && !pathExists, done, err, zipped && err.None?);
  }

  /** The loop over the tables `ts`: skip absent ones, prepare and write present ones, stop at the first error. */
  method WriteEach(s: FeedState, ts: seq<TableName>, intCols: set<string>) returns (done: seq<OutFile>, err: Option<FeedError>)
    ensures (done, err) == WriteTables(s, ts, intCols)
  {
    done := [];
    var i := 0;
    while i < |ts|
      invariant 0 <= i <= |ts|
      invariant WriteTables(s, ts[..i], intCols) == (done, None)
    {
      assert ts[..i + 1][..i] == ts[..i];
      var t := ts[i];
      var f := s.Get(t);
      if f.Some? {
        var u := CoerceIntColumns(f.value, t, intCols);
        if u.Failure? {
          WriteFailurePersists(s, ts, intCols, i + 1);
          return done, Some(u.error);
        }
        done := done + [OutFile(t, FileName(t), u.value)];
      }
      i := i + 1;
    }
    assert ts[..i] == ts;
    err := None;
  }
}
