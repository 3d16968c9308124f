/** The dump's row loop, which groups rows into INSERT statements (client/drizzledump_data.cc, the
    output operator of DrizzleDumpData). */
module InsertBatcher {
  import opened Basics

  datatype Cell = Null | Data(bytes: seq<byte>)
  type Row = seq<Cell>

  /** Columns written without quotes (INT, BIGINT and converted dates); BLOB and VARBINARY columns; the others. */
  datatype Kind = Plain | Binary | Quoted

  datatype Verb = Insert | InsertIgnore | Replace

  datatype Table = Table(name: string, columns: seq<Kind>, extended: bool, verb: Verb)

  /** The output, piece by piece; a value's spelling is not looked into. */
  datatype Token = Open(verb: Verb) | Value(column: nat, cell: Cell) | Comma | NextRow | Close

  const MAX_LINE_LENGTH := 1024 * 1024 - 1025

  predicate FitsTable(t: Table, row: Row) { |row| == |t.columns| && row != [] }

  ghost predicate FitTable(t: Table, rows: seq<Row>) { forall i :: 0 <= i < |rows| ==> FitsTable(t, rows[i]) }

  // -------------------------------------------------------------------------
  // What the output means: a reader of statements.

  datatype Mode = Outside | WantsValue | AfterValue | Broken

  /** The statements read, the finished rows of the one being read, the cells of the row being read. */
  datatype Reader = Reader(statements: seq<seq<Row>>, rows: seq<Row>, cells: Row, mode: Mode)

  function Advance(t: Table, r: Reader, token: Token): Reader {
    match (r.mode, token)
    case (Outside, Open(verb)) =>
      if verb == t.verb then Reader(r.statements, [], [], WantsValue) else r.(mode := Broken)
    case (WantsValue, Value(i, cell)) =>
      if i == |r.cells| then r.(cells := r.cells + [cell], mode := AfterValue) else r.(mode := Broken)
    case (AfterValue, Comma) => r.(mode := WantsValue)
    case (AfterValue, NextRow) =>
      if |r.cells| == |t.columns| then Reader(r.statements, r.rows + [r.cells], [], WantsValue) else r.(mode := Broken)
    case (AfterValue, Close) =>
      if |r.cells| == |t.columns| then Reader(r.statements + [r.rows + [r.cells]], [], [], Outside)
      else r.(mode := Broken)
    case _ => r.(mode := Broken)
  }

  function Read(t: Table, tokens: seq<Token>): Reader {
    if tokens == [] then Reader([], [], [], Outside)
    else Advance(t, Read(t, tokens[..|tokens| - 1]), tokens[|tokens| - 1])
  }

  lemma ReadOneMore(t: Table, tokens: seq<Token>, token: Token)
    ensures Read(t, tokens + [token]) == Advance(t, Read(t, tokens), token)
  {
    assert (tokens + [token])[..|tokens|] == tokens;
  }

  // -------------------------------------------------------------------------
  // The byte counter and the grouping it leads to.

  function CellCost(kind: Kind, cell: Cell): nat {
    match cell
    case Null => 0
    case Data(bytes) => |bytes| + match kind { case Plain => 0 case Binary => |bytes| + 3 case Quoted => 3 }
  }

  /** The cost of a row's first `n` cells. */
  function RowCost(t: Table, row: Row, n: nat): nat
    requires n <= |row| == |t.columns|
  {
    if n == 0 then 0 else RowCost(t, row, n - 1) + CellCost(t.columns[n - 1], row[n - 1])
  }

  /** The counter after the given rows of one statement. */
  ghost function Cost(t: Table, rows: seq<Row>): nat
    requires FitTable(t, rows)
  {
    if rows == [] then 0
    else
      var last := |rows| - 1;
      Cost(t, rows[..last]) + RowCost(t, rows[last], |rows[last]|) + (if last == 0 then 28 + |t.name| else 3)
  }

  /** A statement with these rows takes no more. */
  ghost predicate Full(t: Table, rows: seq<Row>)
    requires FitTable(t, rows)
  {
    !t.extended || Cost(t, rows) >= MAX_LINE_LENGTH
  }

  /** Rows that may form one statement: at least one, and the last one joined while there was room. */
  ghost predicate Batch(t: Table, rows: seq<Row>) {
    && rows != [] && FitTable(t, rows)
    && (|rows| > 1 ==> !Full(t, rows[..|rows| - 1]))
  }

  function Concat(batches: seq<seq<Row>>): seq<Row> {
    if batches == [] then [] else Concat(batches[..|batches| - 1]) + batches[|batches| - 1]
  }

  /** Statements are only closed when full, except at the end. */
  ghost predicate Grouped(t: Table, batches: seq<seq<Row>>) {
    && (forall i :: 0 <= i < |batches| ==> Batch(t, batches[i]))
    && (forall i :: 0 <= i < |batches| - 1 ==> Full(t, batches[i]))
  }

  // -------------------------------------------------------------------------
  // The loops.

  /** The values of one row. */
  method WriteRow(t: Table, row: Row, counter: nat, out: seq<Token>) returns (counter': nat, out': seq<Token>)
    requires FitsTable(t, row)
    requires Read(t, out).mode == WantsValue && Read(t, out).cells == []
    ensures Read(t, out') == Read(t, out).(cells := row, mode := AfterValue)
    ensures counter' == counter + RowCost(t, row, |row|) - Sizes(row, |row|)
  {
    counter', out' := counter, out;
    var i := 0;
    while i < |row|
      invariant i <= |row|
      invariant Read(t, out')
             == Read(t, out).(cells := row[..i], mode := if 0 < i == |row| then AfterValue else WantsValue)
      invariant counter' == counter + RowCost(t, row, i) - Sizes(row, i)
    {
      ReadOneMore(t, out', Value(i, row[i]));
      out' := out' + [Value(i, row[i])];
      if row[i].Data? && t.columns[i] != Plain {
        if t.columns[i] == Binary {
          counter' := counter' + |row[i].bytes|;
        }
        counter' := counter' + 3;
      }
      if i != |t.columns| - 1 {
        ReadOneMore(t, out', Comma);
        out' := out' + [Comma];
      }
      i := i + 1;
    }
  }

  /** The field sizes of a row's first `n` cells, which are counted before the row is written. */
  function Sizes(row: Row, n: nat): nat
    requires n <= |row|
  {
    if n == 0 then 0 else Sizes(row, n - 1) + if row[n - 1].Data? then |row[n - 1].bytes| else 0
  }

  method RowSizes(row: Row) returns (total: nat)
    ensures total == Sizes(row, |row|)
  {
    total := 0;
    for i := 0 to |row|
      invariant total == Sizes(row, i)
    {
      total := total + if row[i].Data? then |row[i].bytes| else 0;
    }
  }

  /** Between two rows: the statements that are closed, and the rows of the one that is open. */
  ghost predicate Written(t: Table, out: seq<Token>, newInsert: bool, counter: nat, closed: seq<seq<Row>>,
                          open: seq<Row>) {
    && (forall i :: 0 <= i < |closed| ==> Batch(t, closed[i]) && Full(t, closed[i]))
    && newInsert == (open == [])
    && (if newInsert then counter == 0 else Batch(t, open) && !Full(t, open) && counter == Cost(t, open))
    && Read(t, out) == (if newInsert then Reader(closed, [], [], Outside)
                        else Reader(closed, open[..|open| - 1], open[|open| - 1], AfterValue))
  }

  /** Separate a row from the one before it, or begin a statement. */
  method BeginRow(t: Table, first: bool, newInsert: bool, counter: nat, out: seq<Token>,
                  ghost before: nat, ghost closed: seq<seq<Row>>, ghost open: seq<Row>)
    returns (newInsert': bool, counter': nat, out': seq<Token>)
    requires Written(t, out, newInsert, before, closed, open) && (first ==> newInsert)
    ensures newInsert' == !t.extended && counter' == counter + if open == [] then 28 + |t.name| else 3
    ensures Read(t, out') == Reader(closed, open, [], WantsValue)
  {
    newInsert', counter', out' := newInsert, counter, out;
    if !first && !newInsert {
      var separator := if t.extended then NextRow else Close;
      ReadOneMore(t, out, separator);
      out' := out' + [separator];
      counter' := counter' + 3;
    }
    if newInsert {
      ReadOneMore(t, out, Open(t.verb));
      out' := out' + [Open(t.verb)];
      counter' := counter' + 28 + |t.name|;
      if t.extended {
        newInsert' := false;
      }
    }
  }

  /** Break the statement up if it is too long. */
  method EndRow(t: Table, newInsert: bool, counter: nat, out: seq<Token>,
                ghost closed: seq<seq<Row>>, ghost open: seq<Row>, ghost row: Row)
    returns (newInsert': bool, counter': nat, out': seq<Token>)
    requires newInsert == !t.extended && Batch(t, open + [row]) && counter == Cost(t, open + [row])
    requires Read(t, out) == Reader(closed, open, row, AfterValue)
    requires forall i :: 0 <= i < |closed| ==> Batch(t, closed[i]) && Full(t, closed[i])
    ensures
      if Full(t, open + [row]) then Written(t, out', newInsert', counter', closed + [open + [row]], [])
      else Written(t, out', newInsert', counter', closed, open + [row])
  {
    newInsert', counter', out' := newInsert, counter, out;
    if (t.extended && counter >= MAX_LINE_LENGTH) || !t.extended {
      ReadOneMore(t, out, Close);
      out' := out' + [Close];
      newInsert', counter' := true, 0;
    }
  }

  /** One row is written. */
  method AddOne(t: Table, row: Row, first: bool, newInsert: bool, counter: nat, out: seq<Token>,
                ghost closed: seq<seq<Row>>, ghost open: seq<Row>)
    returns (newInsert': bool, counter': nat, out': seq<Token>)
    requires Written(t, out, newInsert, counter, closed, open) && (first ==> newInsert) && FitsTable(t, row)
    ensures Batch(t, open + [row])
    ensures
      if Full(t, open + [row]) then Written(t, out', newInsert', counter', closed + [open + [row]], [])
      else Written(t, out', newInsert', counter', closed, open + [row])
  {
    var sizes := RowSizes(row);
    newInsert', counter', out' := BeginRow(t, first, newInsert, counter + sizes, out, counter, closed, open);
    counter', out' := WriteRow(t, row, counter', out');
    AddRow(t, open, row);
    newInsert', counter', out' := EndRow(t, newInsert', counter', out', closed, open, row);
  }

  /** The row loop: what is written reads as closed statements, which hold the rows in order, grouped. */
  method WriteRows(t: Table, rows: seq<Row>) returns (out: seq<Token>)
    requires FitTable(t, rows)
    ensures Read(t, out).mode == Outside
    ensures Concat(Read(t, out).statements) == rows
    ensures Grouped(t, Read(t, out).statements)
  {
    out := [];
    var newInsert, first, counter := true, true, 0;
    ghost var closed: seq<seq<Row>>, open: seq<Row> := [], [];
    for n := 0 to |rows|
      invariant Concat(closed) + open == rows[..n] && (first ==> newInsert)
      invariant Written(t, out, newInsert, counter, closed, open)
    {
      newInsert, counter, out := AddOne(t, rows[n], first, newInsert, counter, out, closed, open);
      first := false;
      OneRowMore(closed, open, rows, n);
      open := open + [rows[n]];
      if Full(t, open) {
        closed, open := closed + [open], [];
      }
    }
    assert rows[..|rows|] == rows;
    out := CloseLast(t, newInsert, counter, out, closed, open);
  }

  /** The last statement is closed too. */
  method CloseLast(t: Table, newInsert: bool, ghost counter: nat, out: seq<Token>,
                   ghost closed: seq<seq<Row>>, ghost open: seq<Row>)
    returns (out': seq<Token>)
    requires Written(t, out, newInsert, counter, closed, open)
    ensures Read(t, out').mode == Outside && Grouped(t, Read(t, out').statements)
    ensures Concat(Read(t, out').statements) == Concat(closed) + open
  {
    out' := out;
    if !newInsert {
      OneBatchMore(closed, open);
      ReadOneMore(t, out, Close);
      out' := out + [Close];
      assert open[..|open| - 1] + [open[|open| - 1]] == open;
      assert Read(t, out') == Reader(closed + [open], [], [], Outside);
      ClosedAreGrouped(t, closed, open);
    }
  }

  lemma ClosedAreGrouped(t: Table, closed: seq<seq<Row>>, open: seq<Row>)
    requires (forall i :: 0 <= i < |closed| ==> Batch(t, closed[i]) && Full(t, closed[i])) && Batch(t, open)
    ensures Grouped(t, closed + [open])
  {
  }

  lemma OneRowMore(closed: seq<seq<Row>>, open: seq<Row>, rows: seq<Row>, n: nat)
    requires n < |rows| && Concat(closed) + open == rows[..n]
    ensures Concat(closed) + (open + [rows[n]]) == rows[..n + 1]
    ensures Concat(closed + [open + [rows[n]]]) + [] == rows[..n + 1]
  {
    OneBatchMore(closed, open + [rows[n]]);
    assert rows[..n + 1] == rows[..n] + [rows[n]];
  }

  lemma OneBatchMore(closed: seq<seq<Row>>, open: seq<Row>)
    ensures Concat(closed + [open]) == Concat(closed) + open
  {
    assert (closed + [open])[..|closed|] == closed;
  }

  lemma AddRow(t: Table, open: seq<Row>, row: Row)
    requires open == [] || (Batch(t, open) && !Full(t, open))
    requires FitsTable(t, row)
    ensures Batch(t, open + [row])
    ensures Cost(t, open + [row]) == Cost(t, open) + RowCost(t, row, |row|) + if open == [] then 28 + |t.name| else 3
  {
    assert (open + [row])[..|open|] == open;
  }

  // -------------------------------------------------------------------------
  // What the grouping means.

  lemma {:induction false} FullStaysFull(t: Table, rows: seq<Row>, k: nat)
    requires FitTable(t, rows) && 0 < k <= |rows| && Full(t, rows[..k])
    ensures Full(t, rows)
    decreases |rows|
  {
    if k < |rows| {
      assert rows[..|rows| - 1][..k] == rows[..k];
      FullStaysFull(t, rows[..|rows| - 1], k);
    } else {
      assert rows[..k] == rows;
    }
  }

  /** No row joins a statement that is full already. */
  lemma NoRowJoinsFull(t: Table, batch: seq<Row>, k: nat)
    requires Batch(t, batch) && 0 < k < |batch|
    ensures !Full(t, batch[..k])
  {
    if Full(t, batch[..k]) {
      assert batch[..|batch| - 1][..k] == batch[..k];
      FullStaysFull(t, batch[..|batch| - 1], k);
    }
  }

  /** Without extended inserts there is one row a statement. */
  lemma OneRowEach(t: Table, batch: seq<Row>)
    requires Batch(t, batch) && !t.extended
    ensures |batch| == 1
  {
  }

  lemma {:induction false} ConcatFront(batches: seq<seq<Row>>)
    requires batches != []
    ensures Concat(batches) == batches[0] + Concat(batches[1..])
  {
    var n := |batches| - 1;
    if n > 0 {
      ConcatFront(batches[..n]);
      assert batches[..n][1..] == batches[1..][..n - 1];
    }
  }

  /** The rows and the limit leave no choice: there is one way to group rows. */
  lemma {:induction false} GroupingIsUnique(t: Table, a: seq<seq<Row>>, b: seq<seq<Row>>)
    requires Grouped(t, a) && Grouped(t, b) && Concat(a) == Concat(b)
    ensures a == b
  {
    if a != [] { ConcatFront(a); }
    if b != [] { ConcatFront(b); }
    if a != [] && b != [] {
      SameFirst(t, a, b);
      assert Concat(a[1..]) == Concat(a)[|a[0]|..] == Concat(b[1..]);
      GroupingIsUnique(t, a[1..], b[1..]);
    }
  }

  lemma SameFirst(t: Table, a: seq<seq<Row>>, b: seq<seq<Row>>)
    requires Grouped(t, a) && Grouped(t, b) && a != [] && b != []
    requires a[0] + Concat(a[1..]) == b[0] + Concat(b[1..])
    ensures a[0] == b[0]
  {
    NotShorter(t, a, b);
    NotShorter(t, b, a);
    assert a[0] == (a[0] + Concat(a[1..]))[..|a[0]|] == b[0];
  }

  lemma NotShorter(t: Table, a: seq<seq<Row>>, b: seq<seq<Row>>)
    requires Grouped(t, a) && Grouped(t, b) && a != [] && b != []
    requires a[0] + Concat(a[1..]) == b[0] + Concat(b[1..])
    ensures |a[0]| >= |b[0]|
  {
    assert |a| == 1 ==> a[0] + Concat(a[1..]) == a[0];
    if |a[0]| < |b[0]| {
      assert a[0] == (a[0] + Concat(a[1..]))[..|a[0]|] == b[0][..|a[0]|];
      NoRowJoinsFull(t, b[0], |a[0]|);
    }
  }
}
