/** How the dump spells values and statements, and how that compares with its byte counter
    (client/drizzledump_data.cc, convertHex, escape and the row loop). */
module DumpText {
  import opened Basics
  import opened InsertBatcher

  // -------------------------------------------------------------------------
  // Hexadecimal spelling.

  function HexDigit(n: nat): char
    requires n < 16
  {
    "0123456789ABCDEF"[n]
  }

  function Hex(bytes: seq<byte>): (s: string)
    ensures |s| == 2 * |bytes|
  {
    if bytes == [] then "" else [HexDigit(bytes[0] / 16), HexDigit(bytes[0] % 16)] + Hex(bytes[1..])
  }

  function HexText(bytes: seq<byte>): string { if bytes == [] then "''" else "0x" + Hex(bytes) }

  method ConvertHex(from: seq<byte>) returns (output: string)
    ensures output == HexText(from)
  {
    output := if from != [] then "0x" else "''";
    ghost var start := output;
    assert from[0..] == from;
    for i := 0 to |from|
      invariant output + Hex(from[i..]) == start + Hex(from)
    {
      output := output + [HexDigit(from[i] / 16), HexDigit(from[i] % 16)];
      assert from[i..][1..] == from[i + 1..];
    }
    assert from[|from|..] == [] && output + "" == output && (from == [] ==> start + "" == start);
  }

  /** The number that a hexadecimal digit stands for. */
  function HexValue(c: char): nat {
    if '0' <= c <= '9' then c as nat - '0' as nat
    else if 'A' <= c <= 'F' then c as nat - 'A' as nat + 10
    else 16
  }

  function UnHex(s: string): seq<int>
    decreases |s|
  {
    if |s| < 2 then [] else [HexValue(s[0]) * 16 + HexValue(s[1])] + UnHex(s[2..])
  }

  lemma HexDigitRead(n: nat)
    requires n < 16
    ensures HexValue(HexDigit(n)) == n
  {
  }

  lemma HexByteRead(b: byte)
    ensures HexValue(HexDigit(b / 16)) * 16 + HexValue(HexDigit(b % 16)) == b
  {
    HexDigitRead(b / 16);
    HexDigitRead(b % 16);
  }

  lemma UnHexFirst(c: char, d: char, rest: string)
    ensures UnHex([c, d] + rest) == [HexValue(c) * 16 + HexValue(d)] + UnHex(rest)
  {
    assert ([c, d] + rest)[2..] == rest;
  }

  /** Two digits a byte, the high one first. */
  lemma {:induction false} HexRoundTrip(bytes: seq<byte>)
    ensures UnHex(Hex(bytes)) == bytes
  {
    if bytes != [] {
      var b, rest := bytes[0], bytes[1..];
      HexByteRead(b);
      UnHexFirst(HexDigit(b / 16), HexDigit(b % 16), Hex(rest));
      HexRoundTrip(rest);
    }
  }

  // -------------------------------------------------------------------------
  // Quoted spelling.

  /** The letter that stands behind a backslash for a byte that is escaped. */
  function EscapeLetter(b: byte): Option<char> {
    if b == 0 then Some('0')
    else if b == 10 then Some('n')
    else if b == 13 then Some('r')
    else if b == 92 then Some('\\')
    else if b == 39 then Some('\'')
    else if b == 34 then Some('"')
    else if b == 26 then Some('Z')
    else None
  }

  datatype Option<T> = None | Some(value: T)

  function EscapedByte(b: byte): string {
    match EscapeLetter(b)
    case Some(c) => ['\\', c]
    case None => [b as char]
  }

  function Escaped(bytes: seq<byte>): string {
    if bytes == [] then "" else EscapedByte(bytes[0]) + Escaped(bytes[1..])
  }

  method Escape(from: seq<byte>) returns (output: string)
    ensures output == Escaped(from)
  {
    output := "";
    assert from[0..] == from;
    for i := 0 to |from|
      invariant output + Escaped(from[i..]) == Escaped(from)
    {
      var s := EscapeOne(from[i]);
      FirstEscaped(output, from, i);
      output := output + s;
    }
    assert from[|from|..] == [] && output + "" == output;
  }

  lemma FirstEscaped(output: string, from: seq<byte>, i: nat)
    requires i < |from|
    ensures output + Escaped(from[i..]) == (output + EscapedByte(from[i])) + Escaped(from[i + 1..])
  {
    assert from[i..][1..] == from[i + 1..];
  }

  /** The body of the loop. */
  method EscapeOne(b: byte) returns (s: string)
    ensures s == EscapedByte(b)
  {
    if b < 128 {
      match b {
        case 0 => return "\\0";
        case 10 => return "\\n";
        case 13 => return "\\r";
        case 92 => return "\\\\";
        case 39 => return "\\'";
        case 34 => return "\\\"";
        case 26 => return "\\Z";
        case _ =>
      }
    }
    return [b as char];
  }

  /** How a server reads a string behind its opening quote: the bytes, and what follows the closing quote. */
  function ReadQuoted(s: string): Option<(seq<int>, string)>
    decreases |s|
  {
    if s == "" then None
    else if s[0] == '\'' then Some(([], s[1..]))
    else if s[0] == '\\' then
      if |s| == 1 then None
      else match ReadQuoted(s[2..])
        case None => None
        case Some((bytes, rest)) => Some(([Meaning(s[1])] + bytes, rest))
    else match ReadQuoted(s[1..])
      case None => None
      case Some((bytes, rest)) => Some(([s[0] as int] + bytes, rest))
  }

  /** What a backslash and a letter mean. */
  function Meaning(c: char): int {
    if c == '0' then 0 else if c == 'n' then 10 else if c == 'r' then 13 else if c == 'Z' then 26 else c as int
  }

  /** A quoted value reads as the bytes it was made of, whatever they are and whatever follows. */
  lemma {:induction false} QuotedRoundTrip(bytes: seq<byte>, rest: string)
    ensures ReadQuoted(Escaped(bytes) + "'" + rest) == Some((bytes, rest))
    decreases |bytes|
  {
    var s := Escaped(bytes) + "'" + rest;
    if bytes == [] {
      assert s[0] == '\'' && s[1..] == rest;
    } else {
      QuotedRoundTrip(bytes[1..], rest);
      var n := |EscapedByte(bytes[0])|;
      assert s[..n] == EscapedByte(bytes[0]) && s[n..] == Escaped(bytes[1..]) + "'" + rest;
      assert s[0] == EscapedByte(bytes[0])[0] && (n == 2 ==> s[1] == EscapedByte(bytes[0])[1]);
      assert [bytes[0] as int] + bytes[1..] == bytes;
    }
  }

  // -------------------------------------------------------------------------
  // Statements as text.

  function Raw(bytes: seq<byte>): (s: string)
    ensures |s| == |bytes|
  {
    seq(|bytes|, i requires 0 <= i < |bytes| => bytes[i] as char)
  }

  function Spelling(kind: Kind, cell: Cell): string {
    match cell
    case Null => "NULL"
    case Data(bytes) =>
      match kind
      case Plain => Raw(bytes)
      case Binary => HexText(bytes)
      case Quoted => "'" + Escaped(bytes) + "'"
  }

  function Head(verb: Verb): string {
    match verb
    case Insert => "INSERT "
    case InsertIgnore => "INSERT IGNORE "
    case Replace => "REPLACE "
  }

  function Spelled(t: Table, token: Token): string {
    match token
    case Open(verb) => Head(verb) + "INTO `" + t.name + "` VALUES ("
    case Value(i, cell) => if i < |t.columns| then Spelling(t.columns[i], cell) else ""
    case Comma => ","
    case NextRow => "),("
    case Close => ");\n"
  }

  function Length(t: Table, tokens: seq<Token>): nat {
    if tokens == [] then 0 else Length(t, tokens[..|tokens| - 1]) + |Spelled(t, tokens[|tokens| - 1])|
  }

  lemma {:induction false} LengthAdds(t: Table, a: seq<Token>, b: seq<Token>)
    ensures Length(t, a + b) == Length(t, a) + Length(t, b)
    decreases |b|
  {
    if b == [] {
      assert a + b == a;
    } else {
      assert (a + b)[..|a + b| - 1] == a + b[..|b| - 1];
      LengthAdds(t, a, b[..|b| - 1]);
    }
  }

  // -------------------------------------------------------------------------
  // The tokens of statements.

  function RowTokens(cells: Row): seq<Token> {
    if cells == [] then []
    else if |cells| == 1 then [Value(0, cells[0])]
    else RowTokens(cells[..|cells| - 1]) + [Comma] + [Value(|cells| - 1, cells[|cells| - 1])]
  }

  /** A statement up to the row that comes next. */
  function Opened(t: Table, rows: seq<Row>): seq<Token> {
    if rows == [] then [Open(t.verb)]
    else Opened(t, rows[..|rows| - 1]) + RowTokens(rows[|rows| - 1]) + [NextRow]
  }

  function StatementTokens(t: Table, rows: seq<Row>): seq<Token>
    requires rows != []
  {
    Opened(t, rows[..|rows| - 1]) + RowTokens(rows[|rows| - 1]) + [Close]
  }

  function AllTokens(t: Table, statements: seq<seq<Row>>): seq<Token>
    requires forall i :: 0 <= i < |statements| ==> statements[i] != []
  {
    if statements == [] then []
    else AllTokens(t, statements[..|statements| - 1]) + StatementTokens(t, statements[|statements| - 1])
  }

  /** What was read of the statement that is not closed yet. */
  function Unclosed(t: Table, r: Reader): seq<Token> {
    match r.mode
    case Outside => []
    case WantsValue => Opened(t, r.rows) + RowTokens(r.cells) + (if r.cells == [] then [] else [Comma])
    case AfterValue => Opened(t, r.rows) + RowTokens(r.cells)
    case Broken => []
  }

  ghost predicate Tidy(r: Reader) {
    && (forall i :: 0 <= i < |r.statements| ==> r.statements[i] != [])
    && (r.mode.AfterValue? ==> r.cells != [])
  }

  /** Only one output reads as given statements: the reader overlooks nothing. */
  lemma {:induction false} ReaderIsFaithful(t: Table, tokens: seq<Token>)
    requires !Read(t, tokens).mode.Broken?
    ensures
      var r := Read(t, tokens);
      Tidy(r) && tokens == AllTokens(t, r.statements) + Unclosed(t, r)
    decreases |tokens|
  {
    if tokens != [] {
      var front, last := tokens[..|tokens| - 1], tokens[|tokens| - 1];
      var r := Read(t, front);
      assert !r.mode.Broken?;
      ReaderIsFaithful(t, front);
      OneMoreToken(t, r, last, AllTokens(t, r.statements));
      assert tokens == front + [last];
    }
  }

  lemma OneMoreToken(t: Table, r: Reader, token: Token, before: seq<Token>)
    requires Tidy(r) && before == AllTokens(t, r.statements)
    requires !r.mode.Broken? && !Advance(t, r, token).mode.Broken?
    ensures Follows(t, r, token, Advance(t, r, token), before)
  {
    match token
    case Open(_) => AfterOpen(t, r, token, before);
    case Value(i, cell) => AfterCell(t, r, token, before);
    case Comma => AfterComma(t, r, token, before);
    case NextRow => AfterRow(t, r, token, before);
    case Close => AfterClose(t, r, token, before);
  }

  /** One more token was read. */
  ghost predicate Follows(t: Table, r: Reader, token: Token, r': Reader, before: seq<Token>) {
    Tidy(r') && AllTokens(t, r'.statements) + Unclosed(t, r') == before + Unclosed(t, r) + [token]
  }

  lemma AfterOpen(t: Table, r: Reader, token: Token, before: seq<Token>)
    requires Tidy(r) && before == AllTokens(t, r.statements) && token.Open? && !Advance(t, r, token).mode.Broken?
    ensures Follows(t, r, token, Advance(t, r, token), before)
  {
    assert before + [] + [token] == before + ([token] + [] + []);
  }

  lemma AfterCell(t: Table, r: Reader, token: Token, before: seq<Token>)
    requires Tidy(r) && before == AllTokens(t, r.statements) && token.Value? && !Advance(t, r, token).mode.Broken?
    ensures Follows(t, r, token, Advance(t, r, token), before)
  {
    OneMoreCell(t, r, token.cell, before);
  }

  lemma AfterComma(t: Table, r: Reader, token: Token, before: seq<Token>)
    requires Tidy(r) && before == AllTokens(t, r.statements) && token.Comma? && !Advance(t, r, token).mode.Broken?
    ensures Follows(t, r, token, Advance(t, r, token), before)
  {
    Regroup(before, Opened(t, r.rows) + RowTokens(r.cells), [token]);
  }

  lemma AfterRow(t: Table, r: Reader, token: Token, before: seq<Token>)
    requires Tidy(r) && before == AllTokens(t, r.statements) && token.NextRow? && !Advance(t, r, token).mode.Broken?
    ensures Follows(t, r, token, Advance(t, r, token), before)
  {
    var r' := Advance(t, r, token);
    var x := Opened(t, r.rows) + RowTokens(r.cells);
    assert Unclosed(t, r) == x && r'.rows == r.rows + [r.cells] && r'.statements == r.statements;
    NextOpened(t, r.rows, r.cells);
    assert Unclosed(t, r') == x + [token];
    Regroup(before, x, [token]);
  }

  lemma AfterClose(t: Table, r: Reader, token: Token, before: seq<Token>)
    requires Tidy(r) && before == AllTokens(t, r.statements) && token.Close? && !Advance(t, r, token).mode.Broken?
    ensures Follows(t, r, token, Advance(t, r, token), before)
  {
    var r' := Advance(t, r, token);
    var x := Opened(t, r.rows) + RowTokens(r.cells);
    assert Unclosed(t, r) == x && r'.statements == r.statements + [r.rows + [r.cells]] && Unclosed(t, r') == [];
    OneMoreStatement(t, r.statements, r.rows, r.cells, before);
  }

  lemma Regroup(before: seq<Token>, x: seq<Token>, y: seq<Token>)
    ensures before + x + y == before + (x + y) && x + y + [] == x + y && before + [] == before
  {
  }

  lemma OneMoreCell(t: Table, r: Reader, cell: Cell, before: seq<Token>)
    requires r.mode.WantsValue?
    ensures before + (Opened(t, r.rows) + RowTokens(r.cells + [cell]))
         == before + Unclosed(t, r) + [Value(|r.cells|, cell)]
  {
    assert (r.cells + [cell])[..|r.cells|] == r.cells;
    var value := [Value(|r.cells|, cell)];
    if r.cells == [] {
      assert RowTokens([cell]) == value && r.cells + [cell] == [cell];
      assert before + (Opened(t, r.rows) + [] + []) + value == before + (Opened(t, r.rows) + value);
    } else {
      var start, row := Opened(t, r.rows), RowTokens(r.cells);
      assert RowTokens(r.cells + [cell]) == row + [Comma] + value;
      assert before + (start + row + [Comma]) + value == before + (start + (row + [Comma] + value));
    }
  }

  lemma NextOpened(t: Table, rows: seq<Row>, cells: Row)
    ensures Opened(t, rows + [cells]) == Opened(t, rows) + RowTokens(cells) + [NextRow]
    ensures Opened(t, rows + [cells]) + RowTokens([]) + [] == Opened(t, rows + [cells])
  {
    assert (rows + [cells])[..|rows|] == rows;
  }

  lemma OneMoreStatement(t: Table, statements: seq<seq<Row>>, rows: seq<Row>, cells: Row, before: seq<Token>)
    requires (forall i :: 0 <= i < |statements| ==> statements[i] != []) && before == AllTokens(t, statements)
    ensures AllTokens(t, statements + [rows + [cells]]) + []
         == before + (Opened(t, rows) + RowTokens(cells)) + [Close]
  {
    assert (rows + [cells])[..|rows|] == rows;
    assert (statements + [rows + [cells]])[..|statements|] == statements;
    Regroup(before, Opened(t, rows) + RowTokens(cells), [Close]);
  }

  // -------------------------------------------------------------------------
  // The byte counter against the text.

  /** How many bytes of a value are escaped. */
  function Escapes(bytes: seq<byte>): nat {
    if bytes == [] then 0 else (if EscapeLetter(bytes[0]).Some? then 1 else 0) + Escapes(bytes[1..])
  }

  /** What the counter does not see of a value and the comma behind it. */
  function Unseen(kind: Kind, cell: Cell): nat {
    match cell
    case Null => 5
    case Data(bytes) =>
      match kind
      case Plain => 1
      case Binary => 0
      case Quoted => Escapes(bytes)
  }

  lemma {:induction false} EscapedLength(bytes: seq<byte>)
    ensures |Escaped(bytes)| == |bytes| + Escapes(bytes)
  {
    if bytes != [] {
      EscapedLength(bytes[1..]);
    }
  }

  /** A value and a comma are as long as the counter says, but for NULLs, numbers and escapes. */
  lemma CellLength(kind: Kind, cell: Cell)
    ensures |Spelling(kind, cell)| + 1 == CellCost(kind, cell) + Unseen(kind, cell)
  {
    if cell.Data? {
      EscapedLength(cell.bytes);
    }
  }

  function RowUnseen(t: Table, row: Row, n: nat): nat
    requires n <= |row| == |t.columns|
  {
    if n == 0 then 0 else RowUnseen(t, row, n - 1) + Unseen(t.columns[n - 1], row[n - 1])
  }

  lemma {:induction false} CellsLength(t: Table, row: Row, n: nat)
    requires 1 <= n <= |row| == |t.columns|
    ensures Length(t, RowTokens(row[..n])) + 1 == RowCost(t, row, n) + RowUnseen(t, row, n)
    decreases n
  {
    CellLength(t.columns[n - 1], row[n - 1]);
    var last := Value(n - 1, row[n - 1]);
    if n == 1 {
      assert RowTokens(row[..1]) == [last] && [last][..0] == [];
    } else {
      CellsLength(t, row, n - 1);
      assert row[..n][..n - 1] == row[..n - 1];
      var front := RowTokens(row[..n - 1]);
      assert RowTokens(row[..n]) == front + [Comma] + [last];
      LengthAdds(t, front + [Comma], [last]);
      LengthAdds(t, front, [Comma]);
      OneLength(t, Comma);
      OneLength(t, last);
    }
  }

  lemma ThreeLengths(t: Table, a: seq<Token>, b: seq<Token>, c: Token)
    ensures Length(t, a + b + [c]) == Length(t, a) + Length(t, b) + |Spelled(t, c)|
  {
    LengthAdds(t, a + b, [c]);
    LengthAdds(t, a, b);
    OneLength(t, c);
  }

  lemma OneLength(t: Table, token: Token)
    ensures Length(t, [token]) == |Spelled(t, token)|
  {
    assert [token][..0] == [];
  }

  ghost function RowsUnseen(t: Table, rows: seq<Row>): nat
    requires FitTable(t, rows)
  {
    if rows == [] then 0
    else RowsUnseen(t, rows[..|rows| - 1]) + RowUnseen(t, rows[|rows| - 1], |rows[|rows| - 1]|)
  }

  /** How much longer the head and the end of a statement are than the counter's 28. */
  function HeadUnseen(verb: Verb): int {
    match verb
    case Insert => -2
    case InsertIgnore => 5
    case Replace => -1
  }

  lemma {:induction false} OpenedLength(t: Table, rows: seq<Row>)
    requires FitTable(t, rows)
    ensures Length(t, Opened(t, rows)) + |rows| + 3
         == (if rows == [] then 28 + |t.name| else Cost(t, rows) + 3) + RowsUnseen(t, rows) + HeadUnseen(t.verb)
    decreases |rows|
  {
    if rows == [] {
      OneLength(t, Open(t.verb));
    } else {
      var front, last := rows[..|rows| - 1], rows[|rows| - 1];
      OpenedLength(t, front);
      RowLength(t, last);
      LastRow(t, rows);
      ThreeLengths(t, Opened(t, front), RowTokens(last), NextRow);
    }
  }

  lemma RowLength(t: Table, row: Row)
    requires FitsTable(t, row)
    ensures Length(t, RowTokens(row)) + 1 == RowCost(t, row, |row|) + RowUnseen(t, row, |row|)
  {
    assert row[..|row|] == row;
    CellsLength(t, row, |row|);
  }

  /** The length of a statement's text: what the counter says, and what it does not see, less one for
      each row, whose last value has no comma. */
  lemma StatementLength(t: Table, rows: seq<Row>)
    requires FitTable(t, rows) && rows != []
    ensures Length(t, StatementTokens(t, rows)) + |rows| == Cost(t, rows) + RowsUnseen(t, rows) + HeadUnseen(t.verb)
  {
    LastRow(t, rows);
    LastStatementRow(t, rows[..|rows| - 1], rows[|rows| - 1], Cost(t, rows), RowsUnseen(t, rows));
  }

  lemma LastStatementRow(t: Table, front: seq<Row>, last: Row, cost: nat, unseen: nat)
    requires FitTable(t, front) && FitsTable(t, last)
    requires cost == Cost(t, front) + RowCost(t, last, |last|) + (if front == [] then 28 + |t.name| else 3)
    requires unseen == RowsUnseen(t, front) + RowUnseen(t, last, |last|)
    ensures Length(t, Opened(t, front) + RowTokens(last) + [Close]) + |front| + 1 == cost + unseen + HeadUnseen(t.verb)
  {
    var start, row := Length(t, Opened(t, front)), Length(t, RowTokens(last));
    PartLengths(t, front, last, cost, unseen, start, row);
    ClosedLength(t, Opened(t, front), RowTokens(last), start, row);
  }

  lemma ClosedLength(t: Table, a: seq<Token>, b: seq<Token>, start: int, row: int)
    requires start == Length(t, a) && row == Length(t, b)
    ensures Length(t, a + b + [Close]) == start + row + 3
  {
    ThreeLengths(t, a, b, Close);
  }

  lemma PartLengths(t: Table, front: seq<Row>, last: Row, cost: nat, unseen: nat, start: int, row: int)
    requires FitTable(t, front) && FitsTable(t, last)
    requires cost == Cost(t, front) + RowCost(t, last, |last|) + (if front == [] then 28 + |t.name| else 3)
    requires unseen == RowsUnseen(t, front) + RowUnseen(t, last, |last|)
    requires start == Length(t, Opened(t, front)) && row == Length(t, RowTokens(last))
    ensures start + row + 3 + |front| + 1 == cost + unseen + HeadUnseen(t.verb)
  {
    OpenedLength(t, front);
    RowLength(t, last);
  }

  lemma LastRow(t: Table, rows: seq<Row>)
    requires FitTable(t, rows) && rows != []
    ensures
      var front, last := rows[..|rows| - 1], rows[|rows| - 1];
      && Cost(t, rows) == Cost(t, front) + RowCost(t, last, |last|) + (if front == [] then 28 + |t.name| else 3)
      && RowsUnseen(t, rows) == RowsUnseen(t, front) + RowUnseen(t, last, |last|)
  {
  }
}
