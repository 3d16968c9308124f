/** The line lexer of the drizzle client as a reader of an unchanging line with a separate output
    (client/drizzle.cc, add_line). */
module LineLexer {
  import opened Basics

  const BACKSLASH: byte := 92
  const HASH: byte := 35
  const DASH: byte := 45
  const SLASH: byte := 47
  const STAR: byte := 42
  const BANG: byte := 33
  const NEWLINE: byte := 10
  const LETTER_N: byte := 78

  /** What the client does on the way: a backslash command with the text from its backslash on, a
      complete statement, an unknown command. */
  datatype Event =
    | Command(c: byte, text: seq<byte>, buffer: seq<byte>)
    | Statement(buffer: seq<byte>)
    | Message(c: byte)

  /** The effect of an event: whether the client quits, the statement buffer and the delimiter after it. */
  datatype Reply = Reply(quit: bool, buffer: seq<byte>, delimiter: seq<byte>)

  datatype Option<T> = None | Some(value: T)

  /** The commands: which bytes name one and whether it takes parameters, and what events lead to. */
  datatype World = World(command: byte -> Option<bool>, reply: seq<Event> -> Reply)

  datatype Settings = Settings(preserveComments: bool, noBackslashEscapes: bool, maxInputLine: nat)

  /** The state between two turns of the loop. `pend` is what has been accepted and not yet flushed. */
  datatype Lex = Lex(pos: nat, pend: seq<byte>, buffer: seq<byte>, inString: byte, mlComment: bool,
                     needSpace: bool, ssComment: bool, delimiter: seq<byte>, log: seq<Event>)

  datatype Outcome = Next(s: Lex) | Break(s: Lex) | Quit(log: seq<Event>)

  predicate IsQuote(b: byte) { b == 39 || b == 34 || b == 96 }

  /** utf8::sequence_length of a byte above 127 */
  function SequenceLength(b: byte): nat {
    if 192 <= b < 224 then 2 else if 224 <= b < 240 then 3 else if 240 <= b < 248 then 4 else 0
  }

  /** Multi-byte sequences do not run past the end of the line. */
  predicate Complete(line: seq<byte>) {
    forall i {:trigger SequenceLength(line[i])} :: 0 <= i < |line| ==> i + SequenceLength(line[i]) <= |line|
  }

  /** The byte at an index, or the NUL at the end. */
  function ByteAt(line: seq<byte>, i: nat): byte { if i < |line| then line[i] else 0 }

  predicate MatchesAt(line: seq<byte>, i: nat, delimiter: seq<byte>) {
    i + |delimiter| <= |line| && line[i..i + |delimiter|] == delimiter
  }

  /** The first place from `i` on where the delimiter stands, or the end of the line. */
  function FindDelimiter(line: seq<byte>, i: nat, delimiter: seq<byte>): (j: nat)
    requires i <= |line|
    ensures i <= j <= |line| && (j < |line| ==> MatchesAt(line, j, delimiter))
    decreases |line| - i
  {
    if i == |line| || MatchesAt(line, i, delimiter) then i else FindDelimiter(line, i + 1, delimiter)
  }

  /** The first end of a comment from `i` on, or the end of the line. */
  function FindCommentEnd(line: seq<byte>, i: nat): (j: nat)
    requires i <= |line|
    ensures i <= j <= |line|
    decreases |line| - i
  {
    if i == |line| || (line[i] == STAR && ByteAt(line, i + 1) == SLASH) then i else FindCommentEnd(line, i + 1)
  }

  predicate StartsLineComment(line: seq<byte>, i: nat) {
    || ByteAt(line, i) == HASH
    || (ByteAt(line, i) == DASH && ByteAt(line, i + 1) == DASH && IsSpace(ByteAt(line, i + 2)))
  }

  /** An empty delimiter is refused by the client, and a C string holds no NUL. */
  function Delimiter(before: seq<byte>, after: seq<byte>): (d: seq<byte>)
    ensures before != [] ==> d != []
  {
    if after == [] || 0 in after then before else after
  }

  function Flush(s: Lex): Lex { s.(buffer := s.buffer + s.pend, pend := []) }

  // -------------------------------------------------------------------------
  // The branches of the loop.

  function Escape(w: World, line: seq<byte>, s: Lex): (o: Outcome)
    requires s.pos < |line| && s.delimiter != []
    ensures o.Next? ==> s.pos < o.s.pos <= |line| && o.s.delimiter != []
  {
    if s.pos + 1 == |line| then Break(s.(pos := s.pos + 1))
    else
      var d := line[s.pos + 1];
      if s.inString != 0 || d == LETTER_N then Next(s.(pend := s.pend + [BACKSLASH, d], pos := s.pos + 2))
      else match w.command(d)
        case Some(takesParams) => ShortCommand(w, line, s, d, takesParams)
        case None => UnknownCommand(w, s, d)
  }

  function UnknownCommand(w: World, s: Lex, d: byte): (o: Outcome)
    ensures o.Next? ==> o.s.pos == s.pos + 2 && o.s.delimiter == s.delimiter
  {
    var log := s.log + [Message(d)];
    if w.reply(log).quit then Quit(log)
    else Next(s.(log := log, pend := s.pend + [BACKSLASH, d], pos := s.pos + 2))
  }

  function ShortCommand(w: World, line: seq<byte>, s: Lex, d: byte, takesParams: bool): (o: Outcome)
    requires s.pos + 1 < |line| && s.delimiter != []
    ensures o.Next? ==> s.pos < o.s.pos <= |line| && o.s.delimiter != []
  {
    var text := line[s.pos..];
    var f := Flush(s).(pos := s.pos + 2);
    var o := Told(w, f, Command(d, text, f.buffer));
    if takesParams && o.Next? then Next(o.s.(pos := AfterParameters(line, o.s.pos, o.s))) else o
  }

  /** An event happens; the client quits or takes the reply over. */
  function Told(w: World, s: Lex, e: Event): (o: Outcome)
    ensures !o.Break?
    ensures o.Next? ==> o.s.pos == s.pos && (s.delimiter != [] ==> o.s.delimiter != [])
  {
    var log := s.log + [e];
    var r := w.reply(log);
    if r.quit then Quit(log)
    else Next(s.(log := log, buffer := r.buffer, delimiter := Delimiter(s.delimiter, r.delimiter)))
  }

  /** Parameters run to the delimiter, which is passed over, or to the end of a server-side comment. */
  function AfterParameters(line: seq<byte>, i: nat, s: Lex): (j: nat)
    requires i <= |line|
    ensures i <= j <= |line|
  {
    if s.ssComment then FindCommentEnd(line, i)
    else
      var j := FindDelimiter(line, i, s.delimiter);
      if j == |line| then j else j + |s.delimiter|
  }

  function AtDelimiter(w: World, c: Settings, line: seq<byte>, s: Lex): (o: Outcome)
    requires s.pos + |s.delimiter| <= |line| && s.delimiter != []
    ensures o.Next? ==> s.pos < o.s.pos <= |line| && o.s.delimiter != []
  {
    Sent(w, EndOfStatement(c, line, s.(pos := s.pos + |s.delimiter|)))
  }

  function EndOfStatement(c: Settings, line: seq<byte>, s: Lex): (t: Lex)
    requires s.pos <= |line|
    ensures s.pos <= t.pos <= |line| && t.delimiter == s.delimiter
  {
    TrailingComment(c, line, Flush(if c.preserveComments then TrailingSpaces(line, s) else s))
  }

  /** The spaces after a delimiter belong to the statement if comments do. */
  function TrailingSpaces(line: seq<byte>, s: Lex): (t: Lex)
    requires s.pos <= |line|
    ensures s.pos <= t.pos <= |line| && t.delimiter == s.delimiter
    decreases |line| - s.pos
  {
    if s.pos < |line| && IsSpace(line[s.pos])
      then TrailingSpaces(line, s.(pend := s.pend + [line[s.pos]], pos := s.pos + 1))
    else s
  }

  /** So does a comment that takes the rest of the line. */
  function TrailingComment(c: Settings, line: seq<byte>, s: Lex): (t: Lex)
    requires s.pos <= |line|
    ensures s.pos <= t.pos <= |line| && t.delimiter == s.delimiter
  {
    if c.preserveComments && StartsLineComment(line, s.pos)
      then s.(buffer := s.buffer + line[s.pos..], pos := |line|) else s
  }

  /** The statement in the buffer is sent, or obeyed if it is a command of the client's. */
  function Sent(w: World, s: Lex): (o: Outcome)
    ensures !o.Break?
    ensures o.Next? ==> o.s.pos == s.pos && (s.delimiter != [] ==> o.s.delimiter != [])
  {
    var o := Told(w, s, Statement(s.buffer));
    if o.Next? then Next(o.s.(buffer := [])) else o
  }

  /** A comment to the end of the line. Kept comments end a statement that has already begun. */
  function LineComment(w: World, c: Settings, line: seq<byte>, s: Lex): Outcome
    requires s.pos < |line|
  {
    var f := Flush(s);
    if !c.preserveComments then Break(f)
    else
      var g := f.(buffer := f.buffer + line[s.pos..]);
      if f.buffer == [] then Break(g)
      else
        var o := Sent(w, g);
        if o.Next? then Break(o.s) else o
  }

  /** A kept comment is sent at once if and only if a statement had begun before it. */
  lemma CommentSentIffBegun(w: World, c: Settings, line: seq<byte>, s: Lex)
    requires s.pos < |line| && c.preserveComments
    ensures (match LineComment(w, c, line, s)
             case Break(t) => t.log == s.log + [Statement(s.buffer + s.pend + line[s.pos..])]
             case Quit(log) => log == s.log + [Statement(s.buffer + s.pend + line[s.pos..])]
             case Next(_) => false)
       <==> s.buffer + s.pend != []
  {
    assert |s.log| < |s.log + [Statement(s.buffer + s.pend + line[s.pos..])]|;
  }

  function OpenComment(c: Settings, s: Lex): Lex {
    Flush(s.(pend := if c.preserveComments then s.pend + [SLASH, STAR] else s.pend))
      .(mlComment := true, pos := s.pos + 2)
  }

  function CloseComment(c: Settings, s: Lex): Lex {
    Flush(s.(pend := if c.preserveComments then s.pend + [STAR, SLASH] else s.pend))
      .(mlComment := false, needSpace := true, pos := s.pos + 2)
  }

  function AddByte(c: Settings, line: seq<byte>, s: Lex): Lex
    requires s.pos < |line|
  {
    var b := line[s.pos];
    var t := Marked(line, s).(pos := s.pos + 1);
    if s.mlComment && !c.preserveComments then t
    else t.(pend := s.pend + (if s.needSpace && !IsSpace(b) then [SPACE, b] else [b]), needSpace := false)
  }

  /** Note where server-side comments and strings begin and end. */
  function Marked(line: seq<byte>, s: Lex): Lex
    requires s.pos < |line|
  {
    var b := line[s.pos];
    var ss := if s.inString == 0 && b == SLASH && ByteAt(line, s.pos + 1) == STAR && ByteAt(line, s.pos + 2) == BANG
                then true
              else if s.inString == 0 && s.ssComment && b == STAR && ByteAt(line, s.pos + 1) == SLASH then false
              else s.ssComment;
    var quote := if b == s.inString then 0
                 else if !s.mlComment && s.inString == 0 && IsQuote(b) then b else s.inString;
    s.(ssComment := ss, inString := quote)
  }

  function MultiByte(c: Settings, line: seq<byte>, s: Lex): (t: Lex)
    requires s.pos < |line| && s.pos + SequenceLength(line[s.pos]) <= |line|
    ensures t.pos == s.pos + SequenceLength(line[s.pos]) && t.delimiter == s.delimiter
  {
    var n := SequenceLength(line[s.pos]);
    if !s.mlComment || c.preserveComments then Kept(line, s, n) else s.(pos := s.pos + n)
  }

  /** The next `n` bytes are accepted as they are. */
  function Kept(line: seq<byte>, s: Lex, n: nat): (t: Lex)
    requires s.pos + n <= |line|
    ensures t.pos == s.pos + n && t.delimiter == s.delimiter
    decreases n
  {
    if n == 0 then s else Kept(line, s.(pend := s.pend + [line[s.pos]], pos := s.pos + 1), n - 1)
  }

  lemma {:induction false} KeptIsCopied(line: seq<byte>, s: Lex, n: nat)
    requires s.pos + n <= |line|
    ensures Kept(line, s, n) == s.(pend := s.pend + line[s.pos..s.pos + n], pos := s.pos + n)
    decreases n
  {
    if n > 0 {
      KeptIsCopied(line, s.(pend := s.pend + [line[s.pos]], pos := s.pos + 1), n - 1);
      assert line[s.pos..s.pos + n] == [line[s.pos]] + line[s.pos + 1..s.pos + n];
      assert (s.pend + [line[s.pos]]) + line[s.pos + 1..s.pos + n] == s.pend + line[s.pos..s.pos + n];
    } else {
      assert s.pend + line[s.pos..s.pos] == s.pend;
    }
  }

  /** One turn of the loop. */
  function Step(w: World, c: Settings, line: seq<byte>, s: Lex): (o: Outcome)
    requires Complete(line) && s.pos < |line| && s.delimiter != []
    ensures o.Next? ==> s.pos < o.s.pos <= |line| && o.s.delimiter != []
  {
    var b := line[s.pos];
    if !c.preserveComments && IsSpace(b) && s.pend == [] && s.buffer == [] then Next(s.(pos := s.pos + 1))
    else if 128 <= b && SequenceLength(b) > 0 then Next(MultiByte(c, line, s))
    else if !s.mlComment && b == BACKSLASH && !(s.inString != 0 && c.noBackslashEscapes) then Escape(w, line, s)
    else Plain(w, c, line, s)
  }

  /** A turn at a byte that is neither part of a longer character nor an escape. */
  function Plain(w: World, c: Settings, line: seq<byte>, s: Lex): (o: Outcome)
    requires s.pos < |line| && s.delimiter != []
    ensures o.Next? ==> s.pos < o.s.pos <= |line| && o.s.delimiter != []
  {
    var b := line[s.pos];
    if !s.mlComment && s.inString == 0 && MatchesAt(line, s.pos, s.delimiter) then AtDelimiter(w, c, line, s)
    else if !s.mlComment && s.inString == 0 && StartsLineComment(line, s.pos) then LineComment(w, c, line, s)
    else Next(Inside(c, line, s))
  }

  /** A turn that can neither end a statement nor the line. */
  function Inside(c: Settings, line: seq<byte>, s: Lex): (t: Lex)
    requires s.pos < |line|
    ensures s.pos < t.pos <= |line| && t.delimiter == s.delimiter
  {
    var b := line[s.pos];
    if s.inString == 0 && b == SLASH && ByteAt(line, s.pos + 1) == STAR && ByteAt(line, s.pos + 2) != BANG
      then OpenComment(c, s)
    else if s.mlComment && !s.ssComment && b == STAR && ByteAt(line, s.pos + 1) == SLASH then CloseComment(c, s)
    else AddByte(c, line, s)
  }

  /** What add_line leaves behind: quit, or the client's state for the next line. */
  datatype Result = Stopped(log: seq<Event>) | TooLong(log: seq<Event>)
                  | Done(buffer: seq<byte>, inString: byte, mlComment: bool, delimiter: seq<byte>, log: seq<Event>)

  function Finish(c: Settings, s: Lex): Result {
    if s.pend == [] && s.buffer == [] then Done(s.buffer, s.inString, s.mlComment, s.delimiter, s.log)
    else if |s.buffer| + |s.pend| + 1 > c.maxInputLine then TooLong(s.log)
    else
      var buffer := if !s.mlComment || c.preserveComments then s.buffer + s.pend + [NEWLINE] else s.buffer;
      Done(buffer, s.inString, s.mlComment, s.delimiter, s.log)
  }

  /** The whole loop. */
  function Lexed(w: World, c: Settings, line: seq<byte>, s: Lex): Result
    requires Complete(line) && s.pos <= |line| && s.delimiter != []
    decreases |line| - s.pos
  {
    if s.pos == |line| then Finish(c, s)
    else match Step(w, c, line, s)
      case Next(t) => Lexed(w, c, line, t)
      case Break(t) => Finish(c, t)
      case Quit(log) => Stopped(log)
  }
}
