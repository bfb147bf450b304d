/** The generic `Table<T>` container: an ordered list of column titles and an
    ordered list of rows, each row a growable list of values. Its one rule is
    the shape invariant: no row holds more values than there are columns. */
module Tables {
  import opened Wrappers
  import Decimal

  /** The exceptions the container can throw. `IndexOutOfBounds` carries the
      offending index and the length of the list it was used on, as the
      `ArrayList` message does. */
  datatype Error =
    | IndexOutOfBounds(index: int, length: int)
    | IllegalArgument(message: string)
    | IllegalState(message: string)

  const SizeChangeMessage: string := "Cannot change the size of a row."
  const RowFullMessage: string := "Row length cannot exceed number of columns"
  const DefaultTitle: string := "Title"

  /** `new ArrayList<>(capacity)` rejects a negative capacity with this message. */
  function IllegalCapacity(capacity: int): Error {
    IllegalArgument("Illegal Capacity: " + Decimal.IntToString(capacity))
  }

  /** A row: the values it currently holds, in column order. */
  datatype Row<T> = Row(values: seq<T>)

  /** A column: only its title. */
  datatype Column = Column(title: string)

  datatype Table<T> = Table(columns: seq<Column>, rows: seq<Row<T>>)

  /** The shape invariant: every row is at most as long as the column list. */
  predicate Valid<T>(t: Table<T>) {
    forall i :: 0 <= i < |t.rows| ==> |t.rows[i].values| <= |t.columns|
  }

  // ---------------------------------------------------------------- Row

  /** `new Row(size)`: the size is only a capacity hint, so the row starts
      empty; a negative hint is refused by the underlying list. */
  function NewRow<T>(size: int): (r: Result<Row<T>, Error>)
    ensures r.Success? <==> size >= 0
    ensures r.Success? ==> GetSize(r.value) == 0
    ensures r.Failure? ==> r.error == IllegalCapacity(size)
  {
    if size < 0 then Failure(IllegalCapacity(size)) else Success(Row([]))
  }

  function GetSize<T>(row: Row<T>): (n: nat) {
    |row.values|
  }

  /** `setValues`: replaces all values at once, but only by a list of the
      row's current length. */
  function SetValues<T>(row: Row<T>, values: seq<T>): (r: Result<Row<T>, Error>)
    ensures r.Failure? <==> |values| != GetSize(row)
    ensures r.Failure? ==> r.error == IllegalArgument(SizeChangeMessage)
    ensures r.Success? ==> GetSize(r.value) == GetSize(row)
    ensures r.Success? ==> forall k :: 0 <= k < GetSize(row) ==> r.value.values[k] == values[k]
  {
    if |values| != GetSize(row) then Failure(IllegalArgument(SizeChangeMessage))
    else Success(Row(values))
  }

  /** `setItem`: overwrites an already present position (`ArrayList.set`). */
  function SetItem<T>(row: Row<T>, item: T, index: int): (r: Result<Row<T>, Error>)
    ensures r.Failure? <==> !(0 <= index < GetSize(row))
    ensures r.Failure? ==> r.error == IndexOutOfBounds(index, GetSize(row))
    ensures r.Success? ==> GetSize(r.value) == GetSize(row)
    ensures r.Success? ==> r.value.values[index] == item
    ensures r.Success? ==>
      forall k :: 0 <= k < GetSize(row) && k != index ==> r.value.values[k] == row.values[k]
  {
    if 0 <= index < |row.values| then Success(Row(row.values[index := item]))
    else Failure(IndexOutOfBounds(index, |row.values|))
  }

  /** `addItem`: appends at the end; the row itself places no bound. */
  function AddItem<T>(row: Row<T>, item: T): (r: Row<T>)
    ensures GetSize(r) == GetSize(row) + 1
    ensures r.values[GetSize(row)] == item
    ensures forall k :: 0 <= k < GetSize(row) ==> r.values[k] == row.values[k]
  {
    Row(row.values + [item])
  }

  /** The position `addItem` fills is the last one `setItem` accepts, and
      overwriting it equals appending the new value in the first place. */
  lemma AddItemThenSetItem<T>(row: Row<T>, x: T, y: T)
    ensures SetItem(AddItem(row, x), y, GetSize(row)) == Success(AddItem(row, y))
    ensures SetItem(AddItem(row, x), y, GetSize(row) + 1).Failure?
  {
    assert (row.values + [x])[GetSize(row) := y] == row.values + [y];
  }

  // ---------------------------------------------------------------- Table

  /** `new Table()`: no columns and no rows. */
  function EmptyTable<T>(): (t: Table<T>)
    ensures GetColCount(t) == 0 && GetRowCount(t) == 0
    ensures Valid(t)
  {
    Table([], [])
  }

  /** `new Table(rows, cols)`: both numbers are capacity hints, so the table is
      empty; a negative one is refused, the column count being checked first. */
  function NewTable<T>(rows: int, cols: int): (r: Result<Table<T>, Error>)
    ensures r.Success? <==> rows >= 0 && cols >= 0
    ensures r.Success? ==> GetColCount(r.value) == 0 && GetRowCount(r.value) == 0
    ensures cols < 0 ==> r == Failure(IllegalCapacity(cols))
    ensures cols >= 0 && rows < 0 ==> r == Failure(IllegalCapacity(rows))
  {
    if cols < 0 then Failure(IllegalCapacity(cols))
    else if rows < 0 then Failure(IllegalCapacity(rows))
    else Success(Table([], []))
  }

  function GetColCount<T>(t: Table<T>): (n: nat) {
    |t.columns|
  }

  function GetRowCount<T>(t: Table<T>): (n: nat) {
    |t.rows|
  }

  /** `addColumn`: appends a column titled `title`; existing rows are not
      touched (they simply gain room for one more value). */
  function AddColumn<T>(t: Table<T>, title: string): (r: Table<T>)
    ensures GetColCount(r) == GetColCount(t) + 1
    ensures r.columns[GetColCount(t)].title == title
    ensures forall k :: 0 <= k < GetColCount(t) ==> r.columns[k] == t.columns[k]
    ensures r.rows == t.rows
    ensures Valid(t) ==> Valid(r)
  {
    Table(t.columns + [Column(title)], t.rows)
  }

  /** `addRow`: appends one empty row (its capacity hint is the column count). */
  function AddRow<T>(t: Table<T>): (r: Table<T>)
    ensures GetRowCount(r) == GetRowCount(t) + 1
    ensures GetSize(r.rows[GetRowCount(t)]) == 0
    ensures forall k :: 0 <= k < GetRowCount(t) ==> r.rows[k] == t.rows[k]
    ensures r.columns == t.columns
    ensures Valid(t) ==> Valid(r)
  {
    var row := NewRow<T>(|t.columns|);
    Table(t.columns, t.rows + [row.value])
  }

  /** `setColTitle`: renames one existing column. */
  function SetColTitle<T>(t: Table<T>, index: int, title: string): (r: Result<Table<T>, Error>)
    ensures r.Failure? <==> !(0 <= index < GetColCount(t))
    ensures r.Failure? ==> r.error == IndexOutOfBounds(index, GetColCount(t))
    ensures r.Success? ==> GetColCount(r.value) == GetColCount(t)
    ensures r.Success? ==> r.value.columns[index].title == title
    ensures r.Success? ==>
      forall k :: 0 <= k < GetColCount(t) && k != index ==> r.value.columns[k] == t.columns[k]
    ensures r.Success? ==> r.value.rows == t.rows
    ensures r.Success? && Valid(t) ==> Valid(r.value)
  {
    if 0 <= index < |t.columns| then Success(Table(t.columns[index := Column(title)], t.rows))
    else Failure(IndexOutOfBounds(index, |t.columns|))
  }

  /** `setRowValue`: overwrites the value at an already filled position; the
      row index is checked first, then the position within that row. */
  function SetRowValue<T>(t: Table<T>, item: T, rowIndex: int, colIndex: int): (r: Result<Table<T>, Error>)
    ensures !(0 <= rowIndex < GetRowCount(t)) ==> r == Failure(IndexOutOfBounds(rowIndex, GetRowCount(t)))
    ensures 0 <= rowIndex < GetRowCount(t) ==>
      (r.Failure? <==> !(0 <= colIndex < GetSize(t.rows[rowIndex])))
    ensures 0 <= rowIndex < GetRowCount(t) && r.Failure? ==>
      r.error == IndexOutOfBounds(colIndex, GetSize(t.rows[rowIndex]))
    ensures r.Success? ==> 0 <= rowIndex < GetRowCount(t) && 0 <= colIndex < GetSize(t.rows[rowIndex])
    ensures r.Success? ==> r.value.columns == t.columns && GetRowCount(r.value) == GetRowCount(t)
    ensures r.Success? ==> forall i :: 0 <= i < GetRowCount(t) ==> GetSize(r.value.rows[i]) == GetSize(t.rows[i])
    ensures r.Success? ==> GetSize(r.value.rows[rowIndex]) == GetSize(t.rows[rowIndex])
    ensures r.Success? ==> r.value.rows[rowIndex].values[colIndex] == item
    ensures r.Success? ==>
      forall k :: 0 <= k < GetSize(t.rows[rowIndex]) && k != colIndex ==>
        r.value.rows[rowIndex].values[k] == t.rows[rowIndex].values[k]
    ensures r.Success? ==>
      forall i :: 0 <= i < GetRowCount(t) && i != rowIndex ==> r.value.rows[i] == t.rows[i]
    ensures r.Success? && Valid(t) ==> Valid(r.value)
  {
    if !(0 <= rowIndex < |t.rows|) then Failure(IndexOutOfBounds(rowIndex, |t.rows|))
    else
      match SetItem(t.rows[rowIndex], item, colIndex)
      case Failure(e) => Failure(e)
      case Success(row) => Success(Table(t.columns, t.rows[rowIndex := row]))
  }

  /** `addValueToRow`: appends to one row, refusing when that row already holds
      as many values as there are columns. */
  function AddValueToRow<T>(t: Table<T>, item: T, rowIndex: int): (r: Result<Table<T>, Error>)
    ensures !(0 <= rowIndex < GetRowCount(t)) ==> r == Failure(IndexOutOfBounds(rowIndex, GetRowCount(t)))
    ensures 0 <= rowIndex < GetRowCount(t) ==>
      (r.Failure? <==> GetSize(t.rows[rowIndex]) >= GetColCount(t))
    ensures 0 <= rowIndex < GetRowCount(t) && r.Failure? ==> r.error == IllegalState(RowFullMessage)
    ensures r.Success? ==> r.value.columns == t.columns && GetRowCount(r.value) == GetRowCount(t)
    ensures r.Success? ==> r.value.rows[rowIndex].values == t.rows[rowIndex].values + [item]
    ensures r.Success? ==>
      forall i :: 0 <= i < GetRowCount(t) && i != rowIndex ==> r.value.rows[i] == t.rows[i]
    ensures r.Success? ==> GetSize(r.value.rows[rowIndex]) <= GetColCount(r.value)
    ensures r.Success? && Valid(t) ==> Valid(r.value)
  {
    if !(0 <= rowIndex < |t.rows|) then Failure(IndexOutOfBounds(rowIndex, |t.rows|))
    else if GetSize(t.rows[rowIndex]) >= |t.columns| then Failure(IllegalState(RowFullMessage))
    else Success(Table(t.columns, t.rows[rowIndex := AddItem(t.rows[rowIndex], item)]))
  }

  /** `build(rows, cols)`: `cols` columns titled "Title", then `rows` empty rows. */
  method Build<V>(rows: int, cols: int) returns (r: Result<Table<V>, Error>)
    ensures r.Success? <==> rows >= 0 && cols >= 0
    ensures r.Failure? ==> r == NewTable<V>(rows, cols)
    ensures r.Success? ==> GetColCount(r.value) == cols && GetRowCount(r.value) == rows
    ensures r.Success? ==> forall k :: 0 <= k < cols ==> r.value.columns[k].title == DefaultTitle
    ensures r.Success? ==> forall i :: 0 <= i < rows ==> GetSize(r.value.rows[i]) == 0
    ensures r.Success? ==> Valid(r.value)
  {
    var created := NewTable<V>(rows, cols);
    if created.Failure? {
      return created;
    }
    var table := created.value;
    var i := 0;
    while i < cols
      invariant 0 <= i <= cols
      invariant GetColCount(table) == i && GetRowCount(table) == 0
      invariant forall k :: 0 <= k < i ==> table.columns[k].title == DefaultTitle
    {
      table := AddColumn(table, DefaultTitle);
      i := i + 1;
    }
    i := 0;
    while i < rows
      invariant 0 <= i <= rows
      invariant GetColCount(table) == cols && GetRowCount(table) == i
      invariant forall k :: 0 <= k < cols ==> table.columns[k].title == DefaultTitle
      invariant forall k :: 0 <= k < i ==> GetSize(table.rows[k]) == 0
    {
      table := AddRow(table);
      i := i + 1;
    }
    return Success(table);
  }

  // ---------------------------------------------------------------- Sessions

  /** A call on the table's public mutating API. */
  datatype Op<T> =
    | AddColumnOp(title: string)
    | AddRowOp
    | SetColTitleOp(index: int, title: string)
    | SetRowValueOp(item: T, rowIndex: int, colIndex: int)
    | AddValueToRowOp(item: T, rowIndex: int)

  function Step<T>(t: Table<T>, op: Op<T>): (r: Result<Table<T>, Error>) {
    match op
    case AddColumnOp(title) => Success(AddColumn(t, title))
    case AddRowOp => Success(AddRow(t))
    case SetColTitleOp(index, title) => SetColTitle(t, index, title)
    case SetRowValueOp(item, rowIndex, colIndex) => SetRowValue(t, item, rowIndex, colIndex)
    case AddValueToRowOp(item, rowIndex) => AddValueToRow(t, item, rowIndex)
  }

  /** Every observed state of a caller that issues `ops` in order and catches
      each exception: a failing call leaves the table as it was. */
  function Trace<T>(t: Table<T>, ops: seq<Op<T>>): (states: seq<Table<T>>)
    ensures |states| == |ops| + 1 && states[0] == t
    decreases |ops|
  {
    if |ops| == 0 then [t]
    else
      var next := match Step(t, ops[0]) case Success(u) => u case Failure(_) => t;
      [t] + Trace(next, ops[1..])
  }

  /** Which calls throw: `addColumn` and `addRow` never do; `setColTitle`
      when the index is outside the column list; `setRowValue` when the row
      or the position within it is out of range; `addValueToRow` when the row
      is out of range or already holds as many values as there are columns. */
  lemma StepFailsExactlyWhen<T>(t: Table<T>, op: Op<T>)
    ensures Step(t, op).Failure? <==>
      match op
      case AddColumnOp(_) => false
      case AddRowOp => false
      case SetColTitleOp(index, _) => !(0 <= index < GetColCount(t))
      case SetRowValueOp(_, rowIndex, colIndex) =>
        !(0 <= rowIndex < GetRowCount(t)) || !(0 <= colIndex < GetSize(t.rows[rowIndex]))
      case AddValueToRowOp(_, rowIndex) =>
        !(0 <= rowIndex < GetRowCount(t)) || GetSize(t.rows[rowIndex]) >= GetColCount(t)
  {
  }

  /** One call never breaks the shape invariant. */
  lemma StepPreservesShape<T>(t: Table<T>, op: Op<T>)
    requires Valid(t)
    ensures Step(t, op).Success? ==> Valid(Step(t, op).value)
  {
  }

  /** The shape invariant holds at every observation point of any session that
      starts from a valid table. */
  lemma {:induction false} TracePreservesShape<T>(t: Table<T>, ops: seq<Op<T>>)
    requires Valid(t)
    ensures forall k :: 0 <= k < |Trace(t, ops)| ==> Valid(Trace(t, ops)[k])
    decreases |ops|
  {
    if |ops| > 0 {
      StepPreservesShape(t, ops[0]);
      var next := match Step(t, ops[0]) case Success(u) => u case Failure(_) => t;
      TracePreservesShape(next, ops[1..]);
      assert Trace(t, ops) == [t] + Trace(next, ops[1..]);
    }
  }

  /** The counters follow the mutators: only `addColumn` changes the column
      count and only `addRow` changes the row count, each by one. */
  lemma CountsFollowMutators<T>(t: Table<T>, op: Op<T>)
    ensures Step(t, op).Success? ==>
      GetColCount(Step(t, op).value) == GetColCount(t) + (if op.AddColumnOp? then 1 else 0)
    ensures Step(t, op).Success? ==>
      GetRowCount(Step(t, op).value) == GetRowCount(t) + (if op.AddRowOp? then 1 else 0)
  {
  }
}
