/** Selecting rows from columns: one store of whole columns, and row groups of which those
    that cannot match are skipped. */
module ColumnScan {
  import opened Options

  datatype Value = Int(n: int) | Float(x: real) | Str(s: string) | Bool(b: bool) | Null

  type Row = map<string, Value>

  type Columns = map<string, seq<Value>>

  datatype Predicate =
    | Eq(col: string, value: Value)
    | Lt(col: string, value: Value)
    | And(left: Predicate, right: Predicate)

  function ColumnName(pred: Predicate): string {
    match pred
    case Eq(col, _) => col
    case Lt(col, _) => col
    case And(left, _) => ColumnName(left)
  }

  // ---- What a selection means, row by row ----

  function Cell(row: Row, c: string): Value {
    if c in row then row[c] else Null
  }

  predicate Less(a: Value, b: Value) {
    || (a.Int? && b.Int? && a.n < b.n)
    || (a.Float? && b.Float? && a.x < b.x)
  }

  predicate Matches(names: set<string>, row: Row, pred: Predicate) {
    match pred
    case Eq(col, value) => col in names && Cell(row, col) == value
    case Lt(col, value) => col in names && Less(Cell(row, col), value)
    case And(left, right) => Matches(names, row, left) && Matches(names, row, right)
  }

  predicate Passes(names: set<string>, row: Row, filter: Option<Predicate>) {
    filter.Some? ==> Matches(names, row, filter.value)
  }

  function Projected(names: set<string>, row: Row, cols: seq<string>): (r: seq<Value>)
    ensures |r| == |cols| && forall i :: 0 <= i < |r| ==> r[i] == if cols[i] in names then Cell(row, cols[i]) else Null
  {
    if cols == [] then []
    else [if cols[0] in names then Cell(row, cols[0]) else Null] + Projected(names, row, cols[1..])
  }

  /** The rows that pass, in their order, with the columns asked for. */
  function Selection(names: set<string>, rows: seq<Row>, cols: seq<string>, filter: Option<Predicate>): seq<seq<Value>> {
    if rows == [] then []
    else
      var last := rows[|rows| - 1];
      Selection(names, rows[..|rows| - 1], cols, filter)
      + if Passes(names, last, filter) then [Projected(names, last, cols)] else []
  }

  /** Where the rows that pass stand. */
  ghost function PassingPlaces(names: set<string>, rows: seq<Row>, filter: Option<Predicate>): seq<nat> {
    if rows == [] then []
    else
      var last := |rows| - 1;
      PassingPlaces(names, rows[..last], filter) + if Passes(names, rows[last], filter) then [last] else []
  }

  lemma {:induction false} PlacesIncrease(names: set<string>, rows: seq<Row>, filter: Option<Predicate>)
    ensures forall n :: 0 <= n < |PassingPlaces(names, rows, filter)| ==> PassingPlaces(names, rows, filter)[n] < |rows|
    ensures forall m, n :: 0 <= m < n < |PassingPlaces(names, rows, filter)| ==>
              PassingPlaces(names, rows, filter)[m] < PassingPlaces(names, rows, filter)[n]
  {
    hide Passes;
    if rows != [] {
      PlacesIncrease(names, rows[..|rows| - 1], filter);
    }
  }

  lemma {:induction false} PlacesPass(names: set<string>, rows: seq<Row>, filter: Option<Predicate>, i: nat)
    requires i < |rows|
    ensures i in PassingPlaces(names, rows, filter) <==> Passes(names, rows[i], filter)
  {
    hide Passes;
    var last := |rows| - 1;
    PlacesIncrease(names, rows[..last], filter);
    if i < last {
      PlacesPass(names, rows[..last], filter, i);
    }
  }

  lemma {:induction false} SelectedAtPlaces(names: set<string>, rows: seq<Row>, cols: seq<string>, filter: Option<Predicate>)
    ensures |Selection(names, rows, cols, filter)| == |PassingPlaces(names, rows, filter)|
    ensures forall n :: 0 <= n < |PassingPlaces(names, rows, filter)| ==>
              && PassingPlaces(names, rows, filter)[n] < |rows|
              && Selection(names, rows, cols, filter)[n] == Projected(names, rows[PassingPlaces(names, rows, filter)[n]], cols)
  {
    hide Passes, Projected;
    PlacesIncrease(names, rows, filter);
    if rows != [] {
      SelectedAtPlaces(names, rows[..|rows| - 1], cols, filter);
    }
  }

  /** `result` is made of the rows at `places`, in their order: the cells of the columns asked
      for, null where the row or the table has none; and these are the rows that match. */
  ghost predicate Picks(result: seq<seq<Value>>, places: seq<nat>, names: set<string>, rows: seq<Row>, cols: seq<string>, filter: Option<Predicate>) {
    && |result| == |places|
    && (forall m, n :: 0 <= m < n < |places| ==> places[m] < places[n])
    && (forall n :: 0 <= n < |places| ==> places[n] < |rows| && |result[n]| == |cols|)
    && (forall n, k :: 0 <= n < |places| && 0 <= k < |cols| ==>
          result[n][k] == if cols[k] in names && cols[k] in rows[places[n]] then rows[places[n]][cols[k]] else Null)
    && (forall i :: 0 <= i < |rows| ==> (i in places <==> filter.None? || Matches(names, rows[i], filter.value)))
  }

  lemma SelectionPicks(names: set<string>, rows: seq<Row>, cols: seq<string>, filter: Option<Predicate>) returns (places: seq<nat>)
    ensures Picks(Selection(names, rows, cols, filter), places, names, rows, cols, filter)
  {
    hide Passes, Matches, Selection, PassingPlaces, Projected;
    places := PassingPlaces(names, rows, filter);
    SelectedAtPlaces(names, rows, cols, filter);
    PlacesIncrease(names, rows, filter);
    forall i | 0 <= i < |rows| ensures i in places <==> filter.None? || Matches(names, rows[i], filter.value) {
      PlacesPass(names, rows, filter, i);
      PassesMeans(names, rows[i], filter);
    }
  }

  lemma PassesMeans(names: set<string>, row: Row, filter: Option<Predicate>)
    ensures Passes(names, row, filter) <==> filter.None? || Matches(names, row, filter.value)
  {
    hide Matches;
  }

  /** A missing cell is null, and equal to null alone. Numbers of one kind are ordered; nothing
      else is less than anything. */
  lemma MatchMeaning(names: set<string>, row: Row, c: string, v: Value, left: Predicate, right: Predicate)
    ensures Matches(names, row, Eq(c, v)) <==> c in names && if c in row then row[c] == v else v == Null
    ensures v.Int? ==> (Matches(names, row, Lt(c, v)) <==> c in names && c in row && row[c].Int? && row[c].n < v.n)
    ensures v.Float? ==> (Matches(names, row, Lt(c, v)) <==> c in names && c in row && row[c].Float? && row[c].x < v.x)
    ensures !v.Int? && !v.Float? ==> !Matches(names, row, Lt(c, v))
    ensures Matches(names, row, And(left, right)) <==> Matches(names, row, left) && Matches(names, row, right)
  {
  }

  lemma {:induction false} SelectionConcat(names: set<string>, a: seq<Row>, b: seq<Row>, cols: seq<string>, filter: Option<Predicate>)
    ensures Selection(names, a + b, cols, filter) == Selection(names, a, cols, filter) + Selection(names, b, cols, filter)
  {
    if b == [] {
      assert a + b == a;
    } else {
      var last := |b| - 1;
      assert (a + b)[..|a + b| - 1] == a + b[..last] && (a + b)[|a + b| - 1] == b[last];
      SelectionConcat(names, a, b[..last], cols, filter);
    }
  }

  lemma {:induction false} NothingSelected(names: set<string>, rows: seq<Row>, cols: seq<string>, filter: Option<Predicate>)
    requires forall i :: 0 <= i < |rows| ==> !Passes(names, rows[i], filter)
    ensures Selection(names, rows, cols, filter) == []
  {
    if rows != [] {
      NothingSelected(names, rows[..|rows| - 1], cols, filter);
    }
  }

  // ---- Columns ----

  function ColumnOf(rows: seq<Row>, c: string): (r: seq<Value>)
    ensures |r| == |rows| && forall i :: 0 <= i < |r| ==> r[i] == Cell(rows[i], c)
  {
    if rows == [] then [] else ColumnOf(rows[..|rows| - 1], c) + [Cell(rows[|rows| - 1], c)]
  }

  /** `columns` hold the rows, column by column. */
  ghost predicate Holds(columns: Columns, names: set<string>, rows: seq<Row>) {
    columns.Keys == names && forall c :: c in names ==> columns[c] == ColumnOf(rows, c)
  }

  function NamesOf(names: seq<string>): set<string> {
    set c | c in names
  }

  predicate NoRepeats(names: seq<string>) {
    forall i, j :: 0 <= i < j < |names| ==> names[i] != names[j]
  }

  function Blank(names: seq<string>): Columns {
    map c | c in names :: []
  }

  /** Push a row's cells, name by name. */
  function PushNames(columns: Columns, names: seq<string>, row: Row): Columns
    requires forall c :: c in names ==> c in columns
  {
    if names == [] then columns
    else
      var c := names[|names| - 1];
      var before := PushNames(columns, names[..|names| - 1], row);
      if c in before then before[c := before[c] + [Cell(row, c)]] else before
  }

  lemma {:induction false} PushedColumn(columns: Columns, names: seq<string>, row: Row, c: string)
    requires forall n :: n in names ==> n in columns
    ensures PushNames(columns, names, row).Keys == columns.Keys
    ensures c in columns && NoRepeats(names) ==>
              PushNames(columns, names, row)[c] == if c in names then columns[c] + [Cell(row, c)] else columns[c]
    ensures c in columns ==> |PushNames(columns, names, row)[c]| == |columns[c]| + multiset(names)[c]
  {
    if names != [] {
      var last := |names| - 1;
      assert names == names[..last] + [names[last]];
      PushedColumn(columns, names[..last], row, c);
    }
  }

  /** Pushing name by name adds a row exactly if no name occurs twice. */
  lemma PushAddsRowExactly(columns: Columns, names: seq<string>, rows: seq<Row>, row: Row)
    requires Holds(columns, NamesOf(names), rows)
    ensures Holds(PushNames(columns, names, row), NamesOf(names), rows + [row]) <==> NoRepeats(names)
  {
    var columns' := PushNames(columns, names, row);
    assert (rows + [row])[..|rows|] == rows;
    PushedColumn(columns, names, row, "");
    if NoRepeats(names) {
      forall c | c in NamesOf(names) ensures columns'[c] == ColumnOf(rows + [row], c) {
        PushedColumn(columns, names, row, c);
      }
    } else {
      var i, j :| 0 <= i < j < |names| && names[i] == names[j];
      PushedColumn(columns, names, row, names[i]);
      TwiceCounted(names, i, j);
    }
  }

  lemma TwiceCounted(names: seq<string>, i: nat, j: nat)
    requires i < j < |names| && names[i] == names[j]
    ensures multiset(names)[names[i]] >= 2
  {
    assert names == names[..j] + ([names[j]] + names[j + 1..]);
    assert names[i] == names[..j][i];
    assert multiset(names) == multiset(names[..j]) + (multiset{names[j]} + multiset(names[j + 1..]));
    assert names[i] in multiset(names[..j]);
  }

  function At(columns: Columns, c: string, i: nat): Option<Value> {
    if c in columns && i < |columns[c]| then Some(columns[c][i]) else None
  }

  lemma AtIsCell(columns: Columns, names: set<string>, rows: seq<Row>, c: string, i: nat)
    requires Holds(columns, names, rows) && i < |rows|
    ensures At(columns, c, i) == if c in names then Some(Cell(rows[i], c)) else None
  {
  }

  /** The projection of one row out of the columns. */
  method ProjectRow(columns: Columns, cols: seq<string>, i: nat, ghost names: set<string>, ghost rows: seq<Row>) returns (r: seq<Value>)
    requires Holds(columns, names, rows) && i < |rows|
    ensures r == Projected(names, rows[i], cols)
  {
    r := [];
    for k := 0 to |cols|
      invariant |r| == k && forall j :: 0 <= j < k ==> r[j] == if cols[j] in names then Cell(rows[i], cols[j]) else Null
    {
      AtIsCell(columns, names, rows, cols[k], i);
      var v := At(columns, cols[k], i);
      r := r + [if v.Some? then v.value else Null];
    }
    assert r == Projected(names, rows[i], cols);
  }

  /** Push one row onto the columns, a missing cell as null. */
  method PushRow(columns: Columns, row: Row, ghost names: set<string>, ghost rows: seq<Row>) returns (columns': Columns)
    requires Holds(columns, names, rows)
    ensures Holds(columns', names, rows + [row])
  {
    hide ColumnOf, Holds;
    KeysHeld(columns, names, rows);
    columns' := columns;
    var left := columns.Keys;
    while left != {}
      invariant left <= names && columns'.Keys == names
      invariant forall c :: c in names ==> columns'[c] == if c in left then columns[c] else columns[c] + [Cell(row, c)]
      decreases |left|
    {
      var c :| c in left;
      left := left - {c};
      columns' := columns'[c := columns'[c] + [Cell(row, c)]];
    }
    RowPushed(columns, columns', names, rows, row);
  }

  lemma RowPushed(columns: Columns, columns': Columns, names: set<string>, rows: seq<Row>, row: Row)
    requires Holds(columns, names, rows) && columns'.Keys == names
    requires forall c :: c in names ==> columns'[c] == columns[c] + [Cell(row, c)]
    ensures Holds(columns', names, rows + [row])
  {
    assert (rows + [row])[..|rows|] == rows;
  }

  lemma KeysHeld(columns: Columns, names: set<string>, rows: seq<Row>)
    requires Holds(columns, names, rows)
    ensures columns.Keys == names
  {
  }

  // ---- The column store ----

  /** A predicate on row `i` of the columns. */
  predicate EvalPredicate(columns: Columns, pred: Predicate, i: nat) {
    match pred
    case Eq(col, expected) => At(columns, col, i) == Some(expected)
    case Lt(col, threshold) =>
      (match (At(columns, col, i), threshold)
       case (Some(Int(a)), Int(b)) => a < b
       case (Some(Float(a)), Float(b)) => a < b
       case _ => false)
    case And(left, right) => EvalPredicate(columns, left, i) && EvalPredicate(columns, right, i)
  }

  lemma {:induction false} EvalIsMatch(columns: Columns, names: set<string>, rows: seq<Row>, pred: Predicate, i: nat)
    requires Holds(columns, names, rows) && i < |rows|
    ensures EvalPredicate(columns, pred, i) <==> Matches(names, rows[i], pred)
    decreases pred
  {
    match pred
    case Eq(col, _) => AtIsCell(columns, names, rows, col, i);
    case Lt(col, _) => AtIsCell(columns, names, rows, col, i);
    case And(left, right) =>
      EvalIsMatch(columns, names, rows, left, i);
      EvalIsMatch(columns, names, rows, right, i);
  }

  class ColumnStore {
    var columns: Columns
    var numRows: nat

    ghost var names: set<string>
    ghost var rows: seq<Row>

    ghost predicate Valid()
      reads this
    {
      Holds(columns, names, rows) && numRows == |rows|
    }

    constructor (columnNames: seq<string>)
      ensures Valid() && names == NamesOf(columnNames) && rows == []
    {
      columns := Blank(columnNames);
      numRows := 0;
      names, rows := NamesOf(columnNames), [];
    }

    method AppendRow(row: Row)
      requires Valid()
      modifies this
      ensures Valid() && names == old(names) && rows == old(rows) + [row]
    {
      columns := PushRow(columns, row, names, rows);
      numRows := numRows + 1;
      rows := rows + [row];
    }

    method Select(cols: seq<string>, filter: Option<Predicate>) returns (result: seq<seq<Value>>, ghost places: seq<nat>)
      requires Valid()
      ensures result == Selection(names, rows, cols, filter)
      ensures Picks(result, places, names, rows, cols, filter)
    {
      hide Holds, EvalPredicate, Matches, Picks;
      result := [];
      places := SelectionPicks(names, rows, cols, filter);
      for i := 0 to numRows
        invariant result == Selection(names, rows[..i], cols, filter)
      {
        assert rows[..i + 1][..i] == rows[..i];
        if filter.Some? {
          EvalIsMatch(columns, names, rows, filter.value, i);
          if !EvalPredicate(columns, filter.value, i) { continue; }
        }
        var rowVals := ProjectRow(columns, cols, i, names, rows);
        result := result + [rowVals];
      }
      assert rows[..|rows|] == rows;
    }
  }

  // ---- Row groups ----

  const ROW_GROUP_SIZE: nat := 65_536

  datatype ColumnStats = ColumnStats(minInt: Option<int>, maxInt: Option<int>, nullCount: nat)

  datatype RowGroup = RowGroup(columns: Columns, stats: map<string, ColumnStats>, size: nat)

  /** The bounds enclose every integer of the column. */
  predicate Bounds(stats: ColumnStats, v: Value) {
    v.Int? ==> stats.minInt.Some? && stats.maxInt.Some? && stats.minInt.value <= v.n <= stats.maxInt.value
  }

  method ComputeStats(col: seq<Value>) returns (stats: ColumnStats)
    ensures forall i :: 0 <= i < |col| ==> Bounds(stats, col[i])
    ensures stats.minInt.Some? <==> exists i :: 0 <= i < |col| && col[i].Int?
    ensures (stats.minInt.Some? <==> stats.maxInt.Some?)
    ensures stats.minInt.Some? ==> Int(stats.minInt.value) in col && Int(stats.maxInt.value) in col
    ensures stats.nullCount == multiset(col)[Null]
  {
    var minInt, maxInt: Option<int> := None, None;
    var nullCount := 0;
    assert col[..0] == [];
    for k := 0 to |col|
      invariant forall i :: 0 <= i < k ==> Bounds(ColumnStats(minInt, maxInt, 0), col[i])
      invariant minInt.Some? <==> exists i :: 0 <= i < k && col[i].Int?
      invariant minInt.Some? <==> maxInt.Some?
      invariant minInt.Some? ==> Int(minInt.value) in col && Int(maxInt.value) in col
      invariant nullCount == multiset(col[..k])[Null]
    {
      assert col[..k + 1] == col[..k] + [col[k]];
      match col[k] {
        case Null => nullCount := nullCount + 1;
        case Int(n) =>
          minInt := Some(if minInt.Some? && minInt.value < n then minInt.value else n);
          maxInt := Some(if maxInt.Some? && maxInt.value > n then maxInt.value else n);
        case _ =>
      }
    }
    assert col[..|col|] == col;
    stats := ColumnStats(minInt, maxInt, nullCount);
  }

  predicate CanSatisfy(stats: ColumnStats, pred: Predicate) {
    match pred
    case Lt(_, Int(threshold)) => stats.minInt.Some? ==> stats.minInt.value < threshold
    case Eq(_, Int(target)) =>
      stats.minInt.Some? && stats.maxInt.Some? ==> stats.minInt.value <= target <= stats.maxInt.value
    case _ => true
  }

  predicate MaySatisfy(g: RowGroup, pred: Predicate) {
    var c := ColumnName(pred);
    c in g.stats ==> CanSatisfy(g.stats[c], pred)
  }

  /** The row-level test of the group reader, which knows no floating-point order. */
  predicate EvalInGroup(columns: Columns, pred: Predicate, i: nat) {
    match pred
    case Eq(col, expected) => At(columns, col, i) == Some(expected)
    case Lt(col, threshold) =>
      (match (At(columns, col, i), threshold)
       case (Some(Int(a)), Int(b)) => a < b
       case _ => false)
    case And(left, right) => EvalInGroup(columns, left, i) && EvalInGroup(columns, right, i)
  }

  predicate NoFloatOrder(pred: Predicate) {
    match pred
    case Eq(_, _) => true
    case Lt(_, v) => !v.Float?
    case And(left, right) => NoFloatOrder(left) && NoFloatOrder(right)
  }

  lemma {:induction false} EvalInGroupIsMatch(columns: Columns, names: set<string>, rows: seq<Row>, pred: Predicate, i: nat)
    requires Holds(columns, names, rows) && i < |rows| && NoFloatOrder(pred)
    ensures EvalInGroup(columns, pred, i) <==> Matches(names, rows[i], pred)
    decreases pred
  {
    match pred
    case Eq(col, _) => AtIsCell(columns, names, rows, col, i);
    case Lt(col, _) => AtIsCell(columns, names, rows, col, i);
    case And(left, right) =>
      EvalInGroupIsMatch(columns, names, rows, left, i);
      EvalInGroupIsMatch(columns, names, rows, right, i);
  }

  /** A predicate with such an order anywhere in it selects no row from groups. */
  lemma {:induction false} FloatOrderSelectsNothing(columns: Columns, pred: Predicate, i: nat)
    requires !NoFloatOrder(pred)
    ensures !EvalInGroup(columns, pred, i)
    decreases pred
  {
    match pred
    case Lt(_, _) =>
    case And(left, right) =>
      if NoFloatOrder(left) {
        FloatOrderSelectsNothing(columns, right, i);
      } else {
        FloatOrderSelectsNothing(columns, left, i);
      }
  }

  /** On a row, groups and column store differ exactly if the predicate orders floating-point
      numbers somewhere and the row matches it. */
  lemma FloatOrderDiffersExactly(columns: Columns, names: set<string>, rows: seq<Row>, pred: Predicate, i: nat)
    requires Holds(columns, names, rows) && i < |rows|
    ensures EvalInGroup(columns, pred, i) == EvalPredicate(columns, pred, i)
            <==> NoFloatOrder(pred) || !Matches(names, rows[i], pred)
  {
    hide Holds, EvalInGroup, EvalPredicate, Matches, NoFloatOrder;
    EvalIsMatch(columns, names, rows, pred, i);
    if NoFloatOrder(pred) {
      EvalInGroupIsMatch(columns, names, rows, pred, i);
    } else {
      FloatOrderSelectsNothing(columns, pred, i);
    }
  }

  /** Whether groups can answer a filter: not if it orders floating-point numbers. */
  predicate Answerable(filter: Option<Predicate>) {
    filter.None? || NoFloatOrder(filter.value)
  }

  /** What a scan of groups finds among their rows. */
  function Found(names: set<string>, rows: seq<Row>, cols: seq<string>, filter: Option<Predicate>): seq<seq<Value>> {
    if Answerable(filter) then Selection(names, rows, cols, filter) else []
  }

  /** A finished group of rows: its columns, and statistics that enclose them. */
  ghost predicate GroupOf(g: RowGroup, names: set<string>, rows: seq<Row>) {
    && Holds(g.columns, names, rows) && g.size == |rows|
    && g.stats.Keys == names
    && forall c :: c in names ==> Summarises(g.stats[c], rows, c)
  }

  /** The bounds enclose every integer of the column, and are integers of the column. */
  ghost predicate Summarises(stats: ColumnStats, rows: seq<Row>, c: string) {
    && (forall i :: 0 <= i < |rows| ==> Bounds(stats, Cell(rows[i], c)))
    && (stats.minInt.Some? ==> exists i :: 0 <= i < |rows| && Cell(rows[i], c) == Int(stats.minInt.value))
    && (stats.maxInt.Some? ==> exists i :: 0 <= i < |rows| && Cell(rows[i], c) == Int(stats.maxInt.value))
  }

  /** The integers of a column. */
  ghost function Integers(rows: seq<Row>, c: string): set<int> {
    set i | 0 <= i < |rows| && c in rows[i] && rows[i][c].Int? :: rows[i][c].n
  }

  /** A group is skipped exactly if the filter is one comparison of a column with an integer,
      the column has integers in the group, and none of them is below the integer asked for,
      or all lie on one side of it. */
  lemma SkippedExactly(g: RowGroup, names: set<string>, rows: seq<Row>, pred: Predicate)
    requires GroupOf(g, names, rows)
    ensures !MaySatisfy(g, pred) <==>
              && !pred.And? && pred.value.Int? && pred.col in names && Integers(rows, pred.col) != {}
              && ((forall n :: n in Integers(rows, pred.col) ==> n >= pred.value.n && (pred.Eq? ==> n > pred.value.n))
                  || (pred.Eq? && forall n :: n in Integers(rows, pred.col) ==> n < pred.value.n))
  {
    if !pred.And? && pred.value.Int? && pred.col in names {
      IntegersBounded(g.stats[pred.col], rows, pred.col);
    }
  }

  lemma IntegersBounded(s: ColumnStats, rows: seq<Row>, c: string)
    requires Summarises(s, rows, c)
    ensures s.minInt.Some? ==> s.minInt.value in Integers(rows, c)
    ensures s.maxInt.Some? ==> s.maxInt.value in Integers(rows, c)
    ensures forall n :: n in Integers(rows, c) ==> s.minInt.Some? && s.maxInt.Some? && s.minInt.value <= n <= s.maxInt.value
  {
    forall n | n in Integers(rows, c) ensures s.minInt.Some? && s.maxInt.Some? && s.minInt.value <= n <= s.maxInt.value {
      var i :| 0 <= i < |rows| && c in rows[i] && rows[i][c] == Int(n);
      assert Bounds(s, Cell(rows[i], c));
    }
  }

  /** A group is skipped only when none of its rows matches. */
  lemma SkippedGroupsHoldNoMatch(g: RowGroup, names: set<string>, rows: seq<Row>, pred: Predicate, i: nat)
    requires GroupOf(g, names, rows) && !MaySatisfy(g, pred) && i < |rows|
    ensures !Matches(names, rows[i], pred)
  {
    var c := ColumnName(pred);
    assert c in names && Summarises(g.stats[c], rows, c);
    assert Bounds(g.stats[c], Cell(rows[i], c));
  }

  function Flattened(groups: seq<seq<Row>>): seq<Row> {
    if groups == [] then [] else Flattened(groups[..|groups| - 1]) + groups[|groups| - 1]
  }

  class ParquetLiteWriter {
    const columnNames: seq<string>
    var columns: Columns
    var size: nat
    var finished: seq<RowGroup>

    ghost var current: seq<Row>
    ghost var groups: seq<seq<Row>>

    ghost function Names(): set<string> {
      NamesOf(columnNames)
    }

    /** All rows written so far. */
    ghost function Rows(): seq<Row>
      reads this
    {
      Flattened(groups) + current
    }

    ghost predicate Valid()
      reads this
    {
      && NoRepeats(columnNames)
      && Holds(columns, Names(), current) && size == |current| < ROW_GROUP_SIZE
      && |finished| == |groups|
      && (forall k :: 0 <= k < |groups| ==> GroupOf(finished[k], Names(), groups[k]) && |groups[k]| == ROW_GROUP_SIZE)
    }

    /** A name that occurs twice would be pushed twice for every row. */
    constructor (columnNames: seq<string>)
      requires NoRepeats(columnNames)
      ensures Valid() && this.columnNames == columnNames && Rows() == []
    {
      this.columnNames := columnNames;
      columns := Blank(columnNames);
      size, finished := 0, [];
      current, groups := [], [];
    }

    method WriteRow(row: Row)
      requires Valid()
      modifies this
      ensures Valid() && Rows() == old(Rows()) + [row]
    {
      hide Holds, GroupOf, PushNames;
      KeysHeld(columns, Names(), current);
      PushAddsRowExactly(columns, columnNames, current, row);
      PushRow(row);
      size := size + 1;
      current := current + [row];
      if size >= ROW_GROUP_SIZE {
        ghost var before := Flattened(groups);
        assert before + current == before + old(current) + [row];
        FlushGroup();
      }
    }

    method PushRow(row: Row)
      requires forall c :: c in columnNames ==> c in columns
      modifies this`columns
      ensures columns == PushNames(old(columns), columnNames, row)
    {
      assert columnNames[..0] == [];
      for k := 0 to |columnNames|
        invariant columns == PushNames(old(columns), columnNames[..k], row)
      {
        var c := columnNames[k];
        assert columnNames[..k + 1][..k] == columnNames[..k];
        PushedColumn(old(columns), columnNames[..k], row, c);
        columns := columns[c := columns[c] + [Cell(row, c)]];
      }
      assert columnNames[..|columnNames|] == columnNames;
    }

    /** Close the current group and begin an empty one. */
    method FlushGroup()
      requires Holds(columns, Names(), current) && size == |current|
      requires |finished| == |groups|
      modifies this
      ensures Holds(columns, Names(), []) && size == 0 && current == []
      ensures |finished| == |groups| && groups == old(groups) + [old(current)]
      ensures finished[..|finished| - 1] == old(finished) && GroupOf(finished[|finished| - 1], Names(), old(current))
      ensures Rows() == old(Rows())
    {
      var stats := FinaliseStats(columns, Names(), current);
      finished := finished + [RowGroup(columns, stats, size)];
      groups := groups + [current];
      assert groups[..|groups| - 1] == old(groups);
      columns := Blank(columnNames);
      size, current := 0, [];
    }

    /** Close the last group too, unless it is empty. */
    method Finish() returns (result: seq<RowGroup>, ghost parts: seq<seq<Row>>)
      requires Valid()
      modifies this
      ensures |result| == |parts| && Flattened(parts) == old(Rows())
      ensures forall k :: 0 <= k < |parts| ==> GroupOf(result[k], Names(), parts[k]) && 0 < |parts[k]| <= ROW_GROUP_SIZE
    {
      hide Holds, GroupOf;
      if size > 0 {
        FlushGroup();
      }
      result, parts := finished, groups;
    }
  }

  method FinaliseStats(columns: Columns, ghost names: set<string>, ghost rows: seq<Row>) returns (stats: map<string, ColumnStats>)
    requires Holds(columns, names, rows)
    ensures stats.Keys == names
    ensures forall c :: c in names ==> Summarises(stats[c], rows, c)
  {
    hide Holds, Bounds, Summarises;
    KeysHeld(columns, names, rows);
    stats := map[];
    var left := columns.Keys;
    while left != {}
      invariant left <= names && stats.Keys == names - left
      invariant forall c :: c in stats ==> Summarises(stats[c], rows, c)
      decreases |left|
    {
      var c :| c in left;
      left := left - {c};
      var s := ComputeStats(columns[c]);
      BoundsHeld(s, columns, names, rows, c);
      stats := stats[c := s];
    }
  }

  lemma BoundsHeld(s: ColumnStats, columns: Columns, names: set<string>, rows: seq<Row>, c: string)
    requires Holds(columns, names, rows) && c in names
    requires s.minInt.Some? ==> Int(s.minInt.value) in columns[c]
    requires s.maxInt.Some? ==> Int(s.maxInt.value) in columns[c]
    requires forall i :: 0 <= i < |columns[c]| ==> Bounds(s, columns[c][i])
    ensures Summarises(s, rows, c)
  {
    assert forall i :: 0 <= i < |rows| ==> columns[c][i] == Cell(rows[i], c);
  }

  /** Scan row groups, skipping those that cannot match. */
  method Scan(groups: seq<RowGroup>, cols: seq<string>, filter: Option<Predicate>, ghost names: set<string>, ghost parts: seq<seq<Row>>)
    returns (result: seq<seq<Value>>, ghost places: seq<nat>)
    requires |groups| == |parts| && forall k :: 0 <= k < |parts| ==> GroupOf(groups[k], names, parts[k])
    ensures result == Found(names, Flattened(parts), cols, filter)
    ensures if filter.None? || NoFloatOrder(filter.value) then Picks(result, places, names, Flattened(parts), cols, filter) else result == []
  {
    hide GroupOf, Selection, Matches, MaySatisfy, Picks, NoFloatOrder;
    result := [];
    places := SelectionPicks(names, Flattened(parts), cols, filter);
    NothingScanned(names, cols, filter);
    for k := 0 to |groups|
      invariant result == Found(names, Flattened(parts[..k]), cols, filter)
    {
      var group := groups[k];
      assert parts[..k + 1][..k] == parts[..k];
      SelectionConcat(names, Flattened(parts[..k]), parts[k], cols, filter);
      if filter.Some? {
        if !MaySatisfy(group, filter.value) {
          forall i | 0 <= i < |parts[k]| ensures !Passes(names, parts[k][i], filter) {
            SkippedGroupsHoldNoMatch(group, names, parts[k], filter.value, i);
          }
          NothingSelected(names, parts[k], cols, filter);
          continue;
        }
      }
      var found := ScanGroup(group, cols, filter, names, parts[k]);
      result := result + found;
    }
    assert parts[..|parts|] == parts;
  }

  method ScanGroup(group: RowGroup, cols: seq<string>, filter: Option<Predicate>, ghost names: set<string>, ghost rows: seq<Row>)
    returns (result: seq<seq<Value>>)
    requires GroupOf(group, names, rows)
    ensures result == Found(names, rows, cols, filter)
  {
    hide Holds, EvalInGroup, Matches, NoFloatOrder;
    result := [];
    for i := 0 to group.size
      invariant result == Found(names, rows[..i], cols, filter)
    {
      assert rows[..i + 1][..i] == rows[..i];
      if filter.Some? {
        GroupAnswers(group.columns, names, rows, filter.value, i);
        if !EvalInGroup(group.columns, filter.value, i) { continue; }
      }
      var rowVals := ProjectRow(group.columns, cols, i, names, rows);
      result := result + [rowVals];
    }
    assert rows[..|rows|] == rows;
  }

  lemma GroupAnswers(columns: Columns, names: set<string>, rows: seq<Row>, pred: Predicate, i: nat)
    requires Holds(columns, names, rows) && i < |rows|
    ensures EvalInGroup(columns, pred, i) <==> NoFloatOrder(pred) && Matches(names, rows[i], pred)
  {
    hide Holds, EvalInGroup, Matches, NoFloatOrder;
    if NoFloatOrder(pred) {
      EvalInGroupIsMatch(columns, names, rows, pred, i);
    } else {
      FloatOrderSelectsNothing(columns, pred, i);
    }
  }

  lemma NothingScanned(names: set<string>, cols: seq<string>, filter: Option<Predicate>)
    ensures Found(names, Flattened([]), cols, filter) == []
  {
  }

  /** Writing rows as groups and scanning these with pruning gives what the column store
      selects from the same rows, exactly if the filter orders no floating-point numbers or
      selects nothing. */
  method ScanLikeSelect(columnNames: seq<string>, rows: seq<Row>, cols: seq<string>, filter: Option<Predicate>)
    returns (scanned: seq<seq<Value>>, selected: seq<seq<Value>>)
    requires NoRepeats(columnNames)
    ensures selected == Selection(NamesOf(columnNames), rows, cols, filter)
    ensures scanned == if Answerable(filter) then selected else []
    ensures scanned == selected <==> filter.None? || NoFloatOrder(filter.value) || selected == []
  {
    hide Selection, GroupOf, Holds, Flattened, NoFloatOrder;
    var store := new ColumnStore(columnNames);
    var writer := new ParquetLiteWriter(columnNames);
    for i := 0 to |rows|
      invariant fresh(store) && fresh(writer) && store.Valid() && writer.Valid()
      invariant writer.columnNames == columnNames && store.names == NamesOf(columnNames)
      invariant store.rows == rows[..i] && writer.Rows() == rows[..i]
    {
      assert rows[..i + 1] == rows[..i] + [rows[i]];
      store.AppendRow(rows[i]);
      writer.WriteRow(rows[i]);
    }
    assert rows[..|rows|] == rows;
    ghost var places, scannedPlaces;
    selected, places := store.Select(cols, filter);
    var groups, parts := writer.Finish();
    scanned, scannedPlaces := Scan(groups, cols, filter, NamesOf(columnNames), parts);
  }
}
