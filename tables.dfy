/**
 * The tables a feed holds, modelled as values: a DataFrame is a sequence of
 * column names and a sequence of rows, each row one cell per column. The two
 * derived structures the feed keeps beside its tables are modelled here too:
 * a table keyed by one column (`DataFrame.set_index`) and rows grouped by a
 * tuple of columns (`DataFrame.groupby`), together with the order-insensitive
 * table comparison the feed's equality uses.
 */
module Tables {
  import opened Wrappers

  /** One cell: a missing value (NaN or None), an integer, or text. */
  datatype Cell = Null | Int(n: int) | Text(s: string)

  type Row = seq<Cell>

  datatype Table = Table(columns: seq<string>, rows: seq<Row>) {
    /** Every row has exactly one cell per column. */
    predicate Rectangular() {
      forall r :: 0 <= r < |rows| ==> |rows[r]| == |columns|
    }
  }

  /** A DataFrame: a rectangular table. */
  type Frame = t: Table | t.Rectangular() witness Table([], [])

  /** `DataFrame.empty`: true when either axis has length zero. */
  predicate Empty(t: Table) {
    |t.rows| == 0 || |t.columns| == 0
  }

  predicate Distinct<T(==)>(s: seq<T>) {
    forall i, j :: 0 <= i < j < |s| ==> s[i] != s[j]
  }

  /** The sequence `s` with position `i` removed. */
  function Without<T>(s: seq<T>, i: nat): (r: seq<T>)
    requires i < |s|
    ensures |r| == |s| - 1
    ensures forall k :: 0 <= k < i ==> r[k] == s[k]
    ensures forall k :: i <= k < |r| ==> r[k] == s[k + 1]
  {
    s[..i] + s[i + 1..]
  }

  /** Position of the first column called `c`. */
  function FirstIndex(cols: seq<string>, c: string): (i: nat)
    requires c in cols
    ensures i < |cols| && cols[i] == c
    ensures forall j :: 0 <= j < i ==> cols[j] != c
  {
    if cols[0] == c then 0 else 1 + FirstIndex(cols[1..], c)
  }

  // ---------------------------------------------------------------------
  // Order-insensitive comparison of tables (`helpers.almost_equal`)
  // ---------------------------------------------------------------------

  /** A row read as a map from column name to cell; a later column of the same name wins. */
  function RowMap(cols: seq<string>, row: Row): (m: map<string, Cell>)
    requires |row| == |cols|
    ensures m.Keys == set c | c in cols
    decreases |cols|
  {
    if cols == [] then map[]
    else
      var n := |cols| - 1;
      RowMap(cols[..n], row[..n])[cols[n] := row[n]]
  }

  predicate RowsFit(cols: seq<string>, rows: seq<Row>) {
    forall r :: 0 <= r < |rows| ==> |rows[r]| == |cols|
  }

  function RowMaps(cols: seq<string>, rows: seq<Row>): (ms: seq<map<string, Cell>>)
    requires RowsFit(cols, rows)
    ensures |ms| == |rows|
    ensures forall r :: 0 <= r < |rows| ==> ms[r] == RowMap(cols, rows[r])
  {
    if rows == [] then [] else [RowMap(cols, rows[0])] + RowMaps(cols, rows[1..])
  }

  /**
   * Two tables are almost equal when they have the same columns and the same
   * rows, regardless of the order of either: the comparison sorts columns by
   * name and rows by value before comparing cells exactly.
   */
  predicate AlmostEqual(a: Frame, b: Frame) {
    && multiset(a.columns) == multiset(b.columns)
    && multiset(RowMaps(a.columns, a.rows)) == multiset(RowMaps(b.columns, b.rows))
  }

  lemma AlmostEqualIsEquivalence(a: Frame, b: Frame, c: Frame)
    ensures AlmostEqual(a, a)
    ensures AlmostEqual(a, b) ==> AlmostEqual(b, a)
    ensures AlmostEqual(a, b) && AlmostEqual(b, c) ==> AlmostEqual(a, c)
  {
  }

  /** With distinct column names, the row map sends every column to its own cell. */
  lemma {:induction false} RowMapAt(cols: seq<string>, row: Row, j: nat)
    requires |row| == |cols| && Distinct(cols) && j < |cols|
    ensures cols[j] in RowMap(cols, row) && RowMap(cols, row)[cols[j]] == row[j]
  {
    var n := |cols| - 1;
    if j < n {
      assert Distinct(cols[..n]);
      RowMapAt(cols[..n], row[..n], j);
      assert cols[j] != cols[n];
    }
  }

  lemma RemoveAt<T>(s: seq<T>, k: nat)
    requires k < |s|
    ensures multiset(s) == multiset(Without(s, k)) + multiset{s[k]}
  {
    assert s == s[..k] + [s[k]] + s[k + 1..];
  }

  lemma Cancel<T>(a: multiset<T>, b: multiset<T>, x: T)
    requires a + multiset{x} == b + multiset{x}
    ensures a == b
  {
    assert forall z :: a[z] == (a + multiset{x})[z] - multiset{x}[z];
  }

  /** Reordering the rows does not change the multiset of row maps. */
  lemma {:induction false} RowMapsPermutation(cols: seq<string>, xs: seq<Row>, ys: seq<Row>)
    requires RowsFit(cols, xs) && RowsFit(cols, ys)
    requires multiset(xs) == multiset(ys)
    ensures multiset(RowMaps(cols, xs)) == multiset(RowMaps(cols, ys))
  {
    if xs == [] {
      assert |ys| == |multiset(ys)| == 0;
    } else {
      var x := xs[0];
      assert x in multiset(ys);
      var k :| 0 <= k < |ys| && ys[k] == x;
      var rest := Without(ys, k);
      RemoveAt(ys, k);
      assert xs == [x] + xs[1..];
      MultisetCons(x, xs[1..]);
      Cancel(multiset(xs[1..]), multiset(rest), x);
      RowMapsPermutation(cols, xs[1..], rest);
      RowMapsWithout(cols, ys, k);
      RemoveAt(RowMaps(cols, ys), k);
      assert RowMaps(cols, xs) == [RowMap(cols, x)] + RowMaps(cols, xs[1..]);
      MultisetCons(RowMap(cols, x), RowMaps(cols, xs[1..]));
    }
  }

  lemma RowMapsWithout(cols: seq<string>, ys: seq<Row>, k: nat)
    requires RowsFit(cols, ys) && k < |ys|
    ensures RowsFit(cols, Without(ys, k))
    ensures RowMaps(cols, Without(ys, k)) == Without(RowMaps(cols, ys), k)
  {
    var rest := Without(ys, k);
    var ms := RowMaps(cols, ys);
    var mr := RowMaps(cols, rest);
    forall i | 0 <= i < |mr| ensures mr[i] == Without(ms, k)[i] {
      if i < k {
        assert rest[i] == ys[i];
      } else {
        assert rest[i] == ys[i + 1];
      }
    }
  }

  lemma MultisetCons<T>(a: T, b: seq<T>)
    ensures multiset([a] + b) == multiset(b) + multiset{a}
  {
  }

  /** Two frames with the same columns whose rows are a permutation of each other are almost equal. */
  lemma RowOrderIrrelevant(a: Frame, b: Frame)
    requires a.columns == b.columns
    requires multiset(a.rows) == multiset(b.rows)
    ensures AlmostEqual(a, b)
  {
    RowMapsPermutation(a.columns, a.rows, b.rows);
  }

  /** `q` is the inverse of `p`, and both are permutations of `0 .. n-1`. */
  predicate IsPermutation(p: seq<nat>, q: seq<nat>, n: nat) {
    && |p| == n && |q| == n
    && (forall k {:trigger p[k]} :: 0 <= k < n ==> p[k] < n && q[p[k]] == k)
    && (forall k {:trigger q[k]} :: 0 <= k < n ==> q[k] < n && p[q[k]] == k)
  }

  /** The frame whose column `k` is column `p[k]` of `t`. */
  function PermuteColumns(t: Frame, p: seq<nat>): (r: Frame)
    requires forall k :: 0 <= k < |p| ==> p[k] < |t.columns|
    ensures |r.columns| == |p| && |r.rows| == |t.rows|
  {
    var cols := seq(|p|, k requires 0 <= k < |p| => t.columns[p[k]]);
    var rows := seq(|t.rows|, r requires 0 <= r < |t.rows| =>
      seq(|p|, k requires 0 <= k < |p| => t.rows[r][p[k]]));
    Table(cols, rows)
  }

  lemma {:induction false} DistinctMultiset(s: seq<string>, x: string)
    requires Distinct(s)
    ensures multiset(s)[x] == if x in s then 1 else 0
  {
    if s != [] {
      var n := |s| - 1;
      assert s == s[..n] + [s[n]];
      assert Distinct(s[..n]);
      DistinctMultiset(s[..n], x);
      assert x == s[n] ==> x !in s[..n];
    }
  }

  /** Permuting distinct column names keeps them distinct and keeps their multiset. */
  lemma {:induction false} PermutedColumns(cols: seq<string>, p: seq<nat>, q: seq<nat>, pc: seq<string>)
    requires Distinct(cols)
    requires IsPermutation(p, q, |cols|)
    requires |pc| == |cols| && forall k :: 0 <= k < |cols| ==> pc[k] == cols[p[k]]
    ensures Distinct(pc)
    ensures multiset(pc) == multiset(cols)
  {
    var n := |cols|;
    forall i, j | 0 <= i < j < n ensures pc[i] != pc[j] {
      assert q[p[i]] == i && q[p[j]] == j;
    }
    forall x ensures multiset(cols)[x] == multiset(pc)[x] {
      DistinctMultiset(cols, x);
      DistinctMultiset(pc, x);
      if x in cols {
        var j :| 0 <= j < n && cols[j] == x;
        assert pc[q[j]] == x;
      }
    }
  }

  /** Reading a row through permuted columns gives the same row map. */
  lemma {:induction false} PermutedRowMap(cols: seq<string>, row: Row, p: seq<nat>, q: seq<nat>, pc: seq<string>, prow: Row)
    requires |row| == |cols| && Distinct(cols) && Distinct(pc)
    requires IsPermutation(p, q, |cols|)
    requires |pc| == |cols| && forall k :: 0 <= k < |cols| ==> pc[k] == cols[p[k]]
    requires |prow| == |cols| && forall k :: 0 <= k < |cols| ==> prow[k] == row[p[k]]
    ensures RowMap(cols, row) == RowMap(pc, prow)
  {
    var m1 := RowMap(cols, row);
    var m2 := RowMap(pc, prow);
    PermutedKeys(cols, p, q, pc);
    assert m1.Keys == m2.Keys;
    forall c | c in m1 ensures m1[c] == m2[c] {
      PermutedCell(cols, row, p, q, pc, prow, c);
    }
  }

  lemma {:induction false} PermutedKeys(cols: seq<string>, p: seq<nat>, q: seq<nat>, pc: seq<string>)
    requires IsPermutation(p, q, |cols|)
    requires |pc| == |cols| && forall k :: 0 <= k < |cols| ==> pc[k] == cols[p[k]]
    ensures (set c | c in cols) == (set c | c in pc)
  {
    forall c | c in cols ensures c in pc {
      var j :| 0 <= j < |cols| && cols[j] == c;
      assert pc[q[j]] == c;
    }
  }

  lemma {:induction false} PermutedCell(cols: seq<string>, row: Row, p: seq<nat>, q: seq<nat>, pc: seq<string>, prow: Row, c: string)
    requires |row| == |cols| && Distinct(cols) && Distinct(pc)
    requires IsPermutation(p, q, |cols|)
    requires |pc| == |cols| && forall k :: 0 <= k < |cols| ==> pc[k] == cols[p[k]]
    requires |prow| == |cols| && forall k :: 0 <= k < |cols| ==> prow[k] == row[p[k]]
    requires c in cols
    ensures c in RowMap(pc, prow) && RowMap(cols, row)[c] == RowMap(pc, prow)[c]
  {
    var j :| 0 <= j < |cols| && cols[j] == c;
    RowMapAt(cols, row, j);
    RowMapAt(pc, prow, q[j]);
  }

  lemma {:induction false} PermutedFrame(t: Frame, u: Frame, p: seq<nat>, q: seq<nat>)
    requires Distinct(t.columns)
    requires IsPermutation(p, q, |t.columns|)
    requires |u.columns| == |t.columns| && |u.rows| == |t.rows|
    requires forall k :: 0 <= k < |p| ==> u.columns[k] == t.columns[p[k]]
    requires forall r, k :: 0 <= r < |t.rows| && 0 <= k < |p| ==> u.rows[r][k] == t.rows[r][p[k]]
    ensures AlmostEqual(t, u)
  {
    PermutedColumns(t.columns, p, q, u.columns);
    PermutedRowMaps(t, u, p, q);
  }

  lemma {:induction false} PermutedRowMaps(t: Frame, u: Frame, p: seq<nat>, q: seq<nat>)
    requires Distinct(t.columns) && Distinct(u.columns)
    requires IsPermutation(p, q, |t.columns|)
    requires |u.columns| == |t.columns| && |u.rows| == |t.rows|
    requires forall k :: 0 <= k < |p| ==> u.columns[k] == t.columns[p[k]]
    requires forall r, k :: 0 <= r < |t.rows| && 0 <= k < |p| ==> u.rows[r][k] == t.rows[r][p[k]]
    ensures RowMaps(t.columns, t.rows) == RowMaps(u.columns, u.rows)
  {
    var ms := RowMaps(t.columns, t.rows);
    var mu := RowMaps(u.columns, u.rows);
    forall r | 0 <= r < |t.rows| ensures ms[r] == mu[r] {
      PermutedRow(t, u, p, q, r);
    }
  }

  lemma {:induction false} PermutedRow(t: Frame, u: Frame, p: seq<nat>, q: seq<nat>, r: nat)
    requires Distinct(t.columns) && Distinct(u.columns)
    requires IsPermutation(p, q, |t.columns|)
    requires |u.columns| == |t.columns| && |u.rows| == |t.rows| && r < |t.rows|
    requires forall k :: 0 <= k < |p| ==> u.columns[k] == t.columns[p[k]]
    requires forall r, k :: 0 <= r < |t.rows| && 0 <= k < |p| ==> u.rows[r][k] == t.rows[r][p[k]]
    ensures RowMap(t.columns, t.rows[r]) == RowMap(u.columns, u.rows[r])
  {
    var row, prow := t.rows[r], u.rows[r];
    assert forall k :: 0 <= k < |p| ==> prow[k] == row[p[k]];
    PermutedRowMap(t.columns, row, p, q, u.columns, prow);
  }

  /** Reordering the (distinctly named) columns of a frame yields an almost equal frame. */
  lemma ColumnOrderIrrelevant(t: Frame, p: seq<nat>, q: seq<nat>)
    requires Distinct(t.columns)
    requires IsPermutation(p, q, |t.columns|)
    ensures AlmostEqual(t, PermuteColumns(t, p))
  {
    PermutedFrame(t, PermuteColumns(t, p), p, q);
  }

  // ---------------------------------------------------------------------
  // A table keyed by one column (`DataFrame.set_index`)
  // ---------------------------------------------------------------------

  /** A table indexed by column `key`: each entry is a key cell and the row without that column. */
  datatype Keyed = Keyed(key: string, columns: seq<string>, entries: seq<(Cell, Row)>)

  predicate HasColumn(rows: seq<Row>, i: nat) {
    forall r :: 0 <= r < |rows| ==> i < |rows[r]|
  }

  function Entries(rows: seq<Row>, i: nat): (es: seq<(Cell, Row)>)
    requires HasColumn(rows, i)
    ensures |es| == |rows|
    ensures forall r :: 0 <= r < |rows| ==> es[r] == (rows[r][i], Without(rows[r], i))
  {
    if rows == [] then [] else [(rows[0][i], Without(rows[0], i))] + Entries(rows[1..], i)
  }

  /**
   * `t.set_index(key)`: fails with the missing column's name (a KeyError) when
   * `t` has no such column; otherwise every row keeps its place, keyed by its
   * cell in that column, and the column leaves the data.
   */
  function SetIndex(t: Frame, key: string): (r: Result<Keyed, string>)
    ensures r.Failure? <==> key !in t.columns
    ensures r.Failure? ==> r.error == key
    ensures r.Success? ==>
      var i := FirstIndex(t.columns, key);
      && r.value.key == key
      && r.value.columns == Without(t.columns, i)
      && |r.value.entries| == |t.rows|
      && forall k :: 0 <= k < |t.rows| ==> r.value.entries[k] == (t.rows[k][i], Without(t.rows[k], i))
  {
    if key !in t.columns then Failure(key)
    else
      var i := FirstIndex(t.columns, key);
      Success(Keyed(key, Without(t.columns, i), Entries(t.rows, i)))
  }

  /** `index.loc[v]`: the entries whose key is `v`, in order. */
  function Lookup(entries: seq<(Cell, Row)>, v: Cell): seq<Row> {
    if entries == [] then []
    else (if entries[0].0 == v then [entries[0].1] else []) + Lookup(entries[1..], v)
  }

  /** The rows of `rows` whose cell `i` is `v`, each without that cell. */
  function RowsWhere(rows: seq<Row>, i: nat, v: Cell): seq<Row>
    requires HasColumn(rows, i)
  {
    if rows == [] then []
    else (if rows[0][i] == v then [Without(rows[0], i)] else []) + RowsWhere(rows[1..], i, v)
  }

  lemma {:induction false} LookupEntries(rows: seq<Row>, i: nat, v: Cell)
    requires HasColumn(rows, i)
    ensures Lookup(Entries(rows, i), v) == RowsWhere(rows, i, v)
  {
    if rows != [] {
      assert Entries(rows, i)[1..] == Entries(rows[1..], i);
      LookupEntries(rows[1..], i, v);
    }
  }

  /** Looking a key up in `t.set_index(key)` yields exactly the rows of `t` carrying that key. */
  lemma SetIndexLookup(t: Frame, key: string, v: Cell)
    requires key in t.columns
    ensures Lookup(SetIndex(t, key).value.entries, v) == RowsWhere(t.rows, FirstIndex(t.columns, key), v)
  {
    LookupEntries(t.rows, FirstIndex(t.columns, key), v);
  }

  // ---------------------------------------------------------------------
  // Rows grouped by a tuple of columns (`DataFrame.groupby`)
  // ---------------------------------------------------------------------

  /** Groups of rows, each under the tuple of its cells in the key columns. */
  datatype Grouped = Grouped(keys: seq<string>, columns: seq<string>, groups: map<seq<Cell>, seq<Row>>)

  predicate Fits(rows: seq<Row>, pos: seq<nat>) {
    forall r, k :: 0 <= r < |rows| && 0 <= k < |pos| ==> pos[k] < |rows[r]|
  }

  function KeyOf(row: Row, pos: seq<nat>): (key: seq<Cell>)
    requires forall k :: 0 <= k < |pos| ==> pos[k] < |row|
    ensures |key| == |pos| && forall k :: 0 <= k < |pos| ==> key[k] == row[pos[k]]
  {
    seq(|pos|, k requires 0 <= k < |pos| => row[pos[k]])
  }

  /** The rows whose key is `key`, in order: what one group holds. */
  function Members(rows: seq<Row>, pos: seq<nat>, key: seq<Cell>): seq<Row>
    requires Fits(rows, pos)
  {
    if rows == [] then []
    else
      var n := |rows| - 1;
      Members(rows[..n], pos, key) + (if KeyOf(rows[n], pos) == key then [rows[n]] else [])
  }

  /** Row-by-row grouping: each row joins the end of its key's group; a key with a missing cell is dropped. */
  function GroupRows(rows: seq<Row>, pos: seq<nat>): map<seq<Cell>, seq<Row>>
    requires Fits(rows, pos)
  {
    if rows == [] then map[]
    else
      var n := |rows| - 1;
      var prev := GroupRows(rows[..n], pos);
      var key := KeyOf(rows[n], pos);
      if Null in key then prev
      else prev[key := (if key in prev then prev[key] else []) + [rows[n]]]
  }

  /** A key has a group exactly when it has no missing cell and some row carries it; the group is those rows, in order. */
  lemma {:induction false} GroupRowsExact(rows: seq<Row>, pos: seq<nat>, key: seq<Cell>)
    requires Fits(rows, pos)
    ensures key in GroupRows(rows, pos) <==> Null !in key && Members(rows, pos, key) != []
    ensures key in GroupRows(rows, pos) ==> GroupRows(rows, pos)[key] == Members(rows, pos, key)
  {
    if rows != [] {
      var n := |rows| - 1;
      assert Fits(rows[..n], pos);
      GroupRowsExact(rows[..n], pos, key);
    }
  }

  /** The first of `keys` that is not a column of `cols`, if any. */
  function MissingKey(cols: seq<string>, keys: seq<string>): (m: Option<string>)
    ensures m.None? <==> forall k :: 0 <= k < |keys| ==> keys[k] in cols
    ensures m.Some? ==> m.value in keys && m.value !in cols
  {
    if keys == [] then None
    else if keys[0] !in cols then Some(keys[0])
    else MissingKey(cols, keys[1..])
  }

  function Positions(cols: seq<string>, keys: seq<string>): (pos: seq<nat>)
    requires forall k :: 0 <= k < |keys| ==> keys[k] in cols
    ensures |pos| == |keys|
    ensures forall k :: 0 <= k < |keys| ==> pos[k] < |cols| && cols[pos[k]] == keys[k]
  {
    seq(|keys|, k requires 0 <= k < |keys| => FirstIndex(cols, keys[k]))
  }

  /** `t.groupby(keys)`: a KeyError naming a missing key column, or the grouping of the rows by those columns. */
  function GroupBy(t: Frame, keys: seq<string>): (r: Result<Grouped, string>)
    ensures r.Failure? <==> exists k :: k in keys && k !in t.columns
    ensures r.Failure? ==> r.error in keys && r.error !in t.columns
    ensures r.Success? ==> r.value.keys == keys && r.value.columns == t.columns
  {
    match MissingKey(t.columns, keys)
    case Some(k) => Failure(k)
    case None =>
      var pos := Positions(t.columns, keys);
      Success(Grouped(keys, t.columns, GroupRows(t.rows, pos)))
  }
}
