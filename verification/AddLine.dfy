/** The drizzle client's line lexer, which edits its line in place (client/drizzle.cc, add_line). */
module AddLine {
  import opened Basics
  import opened LineLexer

  datatype Turn = GoOn | Leave | QuitNow

  class Client {
    const world: World
    const settings: Settings
    const line: array<byte>
    // the client's own state
    var buffer: seq<byte>
    var inString: byte
    var mlComment: bool
    var delimiter: seq<byte>
    var log: seq<Event>
    // the locals of add_line
    var pos: nat
    var out: nat
    var needSpace: bool
    var ssComment: bool

    /** The write cursor is never past the read cursor, and strictly behind it while a space is owed;
        so from the read cursor on the line is still the one that was given. */
    ghost predicate Valid(orig: seq<byte>)
      reads this, line
    {
      && line.Length == |orig| + 1 && pos <= |orig| && out <= pos
      && (needSpace ==> out < pos)
      && line[pos..|orig|] == orig[pos..] && line[|orig|] == 0
      && 0 !in orig
      && delimiter != [] && 0 !in delimiter
    }

    ghost function State(): Lex
      reads this, line
      requires out <= line.Length
    {
      Lex(pos, line[..out], buffer, inString, mlComment, needSpace, ssComment, delimiter, log)
    }

    /** A line comes in; the rest is what earlier lines left behind. */
    constructor (world: World, settings: Settings, orig: seq<byte>, line: array<byte>, buffer: seq<byte>,
                 inString: byte, mlComment: bool, delimiter: seq<byte>, log: seq<Event>)
      requires Complete(orig) && 0 !in orig && line.Length == |orig| + 1 && line[..] == orig + [0]
      requires delimiter != [] && 0 !in delimiter
      ensures Valid(orig) && this.world == world && this.settings == settings && this.line == line
      ensures State() == Lex(0, [], buffer, inString, mlComment, false, false, delimiter, log)
    {
      this.world, this.settings, this.line := world, settings, line;
      this.buffer, this.inString, this.mlComment := buffer, inString, mlComment;
      this.delimiter, this.log := delimiter, log;
      pos, out, needSpace, ssComment := 0, 0, false, false;
      new;
      assert line[0..|orig|] == line[..][..|orig|] == orig[0..];
      assert line[|orig|] == line[..][|orig|];
    }

    /** `*out++= b`, with room for it. */
    method Put(orig: seq<byte>, b: byte)
      requires Valid(orig) && out < pos && (needSpace ==> out + 1 < pos)
      modifies this`out, line
      ensures Valid(orig) && out == old(out) + 1
      ensures line[..out] == old(line[..out]) + [b]
      ensures State() == old(State()).(pend := old(line[..out]) + [b])
    {
      line[out] := b;
      out := out + 1;
      assert line[pos..|orig|] == old(line[pos..|orig|]);
    }

    method FlushLine(orig: seq<byte>)
      requires Valid(orig)
      modifies this`out, this`buffer
      ensures Valid(orig) && out == 0 && State() == Flush(old(State()))
    {
      if out != 0 {
        buffer := buffer + line[..out];
        out := 0;
      }
      assert buffer == old(buffer) + old(line[..out]);
    }

    /** The byte `k` places on from the read cursor is the one of the given line. */
    lemma Original(orig: seq<byte>, k: nat)
      requires Valid(orig) && pos + k <= |orig|
      ensures line[pos + k] == ByteAt(orig, pos + k)
      ensures pos + k < |orig| ==> line[pos + k] == orig[pos + k] != 0
    {
      if pos + k < |orig| {
        assert line[pos..|orig|][k] == orig[pos..][k];
        assert orig[pos + k] in orig;
      }
    }

    /** strncmp(line + i, delimiter, strlen(delimiter)) == 0 */
    method AtDelim(orig: seq<byte>, i: nat) returns (r: bool)
      requires Valid(orig) && pos <= i <= |orig|
      ensures r == MatchesAt(orig, i, delimiter)
    {
      var k := 0;
      while k < |delimiter|
        invariant k <= |delimiter| && i + k <= |orig|
        invariant forall j :: 0 <= j < k ==> orig[i + j] == delimiter[j]
      {
        Original(orig, i + k - pos);
        if line[i + k] != delimiter[k] {
          MismatchAt(orig, i, delimiter, k);
          return false;
        }
        assert delimiter[k] in delimiter;
        k := k + 1;
      }
      assert orig[i..i + |delimiter|] == delimiter;
      return true;
    }

    method LineCommentAt(orig: seq<byte>, i: nat) returns (r: bool)
      requires Valid(orig) && pos <= i <= |orig|
      ensures r == StartsLineComment(orig, i)
    {
      Original(orig, i - pos);
      if line[i] == HASH {
        return true;
      }
      if line[i] != DASH {
        return false;
      }
      Original(orig, i + 1 - pos);
      if line[i + 1] != DASH {
        return false;
      }
      Original(orig, i + 2 - pos);
      return IsSpace(line[i + 2]);
    }

    method CommentEndAt(orig: seq<byte>, i: nat) returns (r: bool)
      requires Valid(orig) && pos <= i < |orig|
      ensures r == (orig[i] == STAR && ByteAt(orig, i + 1) == SLASH)
    {
      Original(orig, i - pos);
      if line[i] != STAR {
        return false;
      }
      Original(orig, i + 1 - pos);
      return line[i + 1] == SLASH;
    }

    /** The text of the line from the read cursor on, as a C string. */
    method Tail(orig: seq<byte>, i: nat) returns (t: seq<byte>)
      requires Valid(orig) && pos <= i <= |orig|
      ensures t == orig[i..]
    {
      t := line[i..line.Length - 1];
      assert t == line[pos..|orig|][i - pos..];
      assert orig[i..] == orig[pos..][i - pos..];
    }
  
    /** A backslash outside comments. */
    method EscapeBranch(orig: seq<byte>) returns (t: Turn)
      requires Valid(orig) && pos < |orig|
      modifies this`pos, this`out, this`buffer, this`delimiter, this`log, line
      ensures Valid(orig) && Outcomes(t, State(), log, Escape(world, orig, old(State())))
    {
      if pos + 1 == |orig| {
        pos := pos + 1;
        return Leave;
      }
      Original(orig, 1);
      var d := line[pos + 1];
      if inString == 0 && d != LETTER_N {
        match world.command(d) {
          case Some(takesParams) =>
            t := CommandBranch(orig, d, takesParams);
            return;
          case None =>
            t := UnknownBranch(orig, d);
            return;
        }
      }
      KeepTwo(orig, BACKSLASH, d);
      return GoOn;
    }

    method UnknownBranch(orig: seq<byte>, d: byte) returns (t: Turn)
      requires Valid(orig) && pos + 2 <= |orig|
      modifies this`pos, this`out, this`log, line
      ensures Valid(orig) && Outcomes(t, State(), log, UnknownCommand(world, old(State()), d))
    {
      log := log + [Message(d)];
      if world.reply(log).quit {
        return QuitNow;
      }
      KeepTwo(orig, BACKSLASH, d);
      return GoOn;
    }

    /** Copy the two bytes at the read cursor. */
    method KeepTwo(orig: seq<byte>, a: byte, b: byte)
      requires Valid(orig) && pos + 2 <= |orig|
      modifies this`pos, this`out, line
      ensures Valid(orig) && State() == old(State()).(pend := old(State()).pend + [a, b], pos := old(pos) + 2)
    {
      AdvanceBy(orig, 2);
      Put(orig, a);
      Put(orig, b);
      assert State().pend == old(State()).pend + [a, b];
    }

    /** pos += k */
    method AdvanceBy(orig: seq<byte>, k: nat)
      requires Valid(orig) && pos + k <= |orig|
      modifies this`pos
      ensures Valid(orig) && State() == old(State()).(pos := old(pos) + k)
    {
      assert orig[pos..][k..] == orig[pos + k..];
      assert line[pos..|orig|][k..] == line[pos + k..|orig|];
      pos := pos + k;
    }

    method CommandBranch(orig: seq<byte>, d: byte, takesParams: bool) returns (t: Turn)
      requires Valid(orig) && pos + 1 < |orig|
      modifies this`pos, this`out, this`buffer, this`delimiter, this`log
      ensures Valid(orig) && Outcomes(t, State(), log, ShortCommand(world, orig, old(State()), d, takesParams))
    {
      var text := PassCommand(orig);
      t := Tell(orig, Command(d, text, buffer));
      if t.GoOn? && takesParams {
        SkipParameters(orig);
      }
    }

    /** The text from the command's backslash on; what was accepted before it is flushed. */
    method PassCommand(orig: seq<byte>) returns (text: seq<byte>)
      requires Valid(orig) && pos + 1 < |orig|
      modifies this`pos, this`out, this`buffer
      ensures Valid(orig) && text == orig[old(pos)..] && State() == Flush(old(State())).(pos := old(pos) + 2)
    {
      text := Tail(orig, pos);
      AdvanceBy(orig, 2);
      FlushLine(orig);
    }

    /** An event happens; its reply is taken over. */
    method Tell(orig: seq<byte>, e: Event) returns (t: Turn)
      requires Valid(orig)
      modifies this`buffer, this`delimiter, this`log
      ensures Valid(orig) && !t.Leave? && Outcomes(t, State(), log, Told(world, old(State()), e))
    {
      log := log + [e];
      var r := world.reply(log);
      if r.quit {
        return QuitNow;
      }
      buffer := r.buffer;
      if r.delimiter != [] && 0 !in r.delimiter {
        delimiter := r.delimiter;
      }
      return GoOn;
    }

    method SkipParameters(orig: seq<byte>)
      requires Valid(orig)
      modifies this`pos
      ensures Valid(orig) && State() == old(State()).(pos := AfterParameters(orig, old(pos), old(State())))
    {
      if ssComment {
        SkipToCommentEnd(orig);
      } else {
        SkipToDelimiter(orig);
        if pos < |orig| {
          AdvanceBy(orig, |delimiter|);
        }
      }
    }

    method SkipToCommentEnd(orig: seq<byte>)
      requires Valid(orig)
      modifies this`pos
      ensures Valid(orig) && State() == old(State()).(pos := FindCommentEnd(orig, old(pos)))
    {
      while pos < |orig|
        invariant Valid(orig)
        invariant FindCommentEnd(orig, pos) == FindCommentEnd(orig, old(pos))
        decreases |orig| - pos
      {
        var stop := CommentEndAt(orig, pos);
        if stop {
          return;
        }
        AdvanceBy(orig, 1);
      }
    }

    method SkipToDelimiter(orig: seq<byte>)
      requires Valid(orig)
      modifies this`pos
      ensures Valid(orig) && State() == old(State()).(pos := FindDelimiter(orig, old(pos), delimiter))
    {
      while pos < |orig|
        invariant Valid(orig)
        invariant FindDelimiter(orig, pos, delimiter) == FindDelimiter(orig, old(pos), delimiter)
        decreases |orig| - pos
      {
        var stop := AtDelim(orig, pos);
        if stop {
          return;
        }
        AdvanceBy(orig, 1);
      }
    }

    /** The delimiter stands at the read cursor: a statement is complete. */
    method DelimiterBranch(orig: seq<byte>) returns (t: Turn)
      requires Valid(orig) && pos + |delimiter| <= |orig|
      modifies this`pos, this`out, this`buffer, this`delimiter, this`log, line
      ensures Valid(orig) && Outcomes(t, State(), log, AtDelimiter(world, settings, orig, old(State())))
    {
      EndStatement(orig);
      t := Send(orig);
    }

    /** Whatever is owed, there is room behind the delimiter. */
    method PassDelimiter(orig: seq<byte>)
      requires Valid(orig) && pos + |delimiter| <= |orig|
      modifies this`pos
      ensures Valid(orig) && out < pos && (needSpace ==> out + 1 < pos)
      ensures State() == old(State()).(pos := old(pos) + |delimiter|)
    {
      AdvanceBy(orig, |delimiter|);
    }

    method EndStatement(orig: seq<byte>)
      requires Valid(orig) && pos + |delimiter| <= |orig|
      modifies this`pos, this`out, this`buffer, line
      ensures Valid(orig)
      ensures State() == EndOfStatement(settings, orig, old(State()).(pos := old(pos) + |delimiter|))
    {
      PassDelimiter(orig);
      CloseStatement(orig);
    }

    method CloseStatement(orig: seq<byte>)
      requires Valid(orig) && out < pos && (needSpace ==> out + 1 < pos)
      modifies this`pos, this`out, this`buffer, line
      ensures Valid(orig) && State() == EndOfStatement(settings, orig, old(State()))
    {
      if settings.preserveComments {
        KeepSpaces(orig);
      }
      FlushLine(orig);
      KeepTrailingComment(orig);
    }

    method KeepTrailingComment(orig: seq<byte>)
      requires Valid(orig)
      modifies this`pos, this`buffer
      ensures Valid(orig) && State() == TrailingComment(settings, orig, old(State()))
    {
      if settings.preserveComments {
        var comment := LineCommentAt(orig, pos);
        if comment {
          var text := Tail(orig, pos);
          buffer := buffer + text;
          AdvanceBy(orig, |orig| - pos);
        }
      }
    }

    /** Send the statement in the buffer. */
    method Send(orig: seq<byte>) returns (t: Turn)
      requires Valid(orig)
      modifies this`buffer, this`delimiter, this`log
      ensures Valid(orig) && Outcomes(t, State(), log, Sent(world, old(State())))
    {
      t := Tell(orig, Statement(buffer));
      if t.GoOn? {
        buffer := [];
      }
    }

    /** A comment takes the rest of the line. */
    method LineCommentBranch(orig: seq<byte>) returns (t: Turn)
      requires Valid(orig) && pos < |orig|
      modifies this`out, this`buffer, this`delimiter, this`log
      ensures Valid(orig) && Outcomes(t, State(), log, LineComment(world, settings, orig, old(State())))
    {
      FlushLine(orig);
      if settings.preserveComments {
        var startedWithNothing := buffer != [];
        var text := Tail(orig, pos);
        buffer := buffer + text;
        if startedWithNothing {
          t := Send(orig);
          if t.QuitNow? {
            return;
          }
        }
      }
      return Leave;
    }

    method KeepSpaces(orig: seq<byte>)
      requires Valid(orig) && out < pos && (needSpace ==> out + 1 < pos)
      modifies this`pos, this`out, line
      ensures Valid(orig) && State() == TrailingSpaces(orig, old(State()))
    {
      ghost var s := State();
      Original(orig, 0);
      while IsSpace(line[pos])
        invariant Valid(orig) && out < pos && (needSpace ==> out + 1 < pos)
        invariant line[pos] == ByteAt(orig, pos)
        invariant TrailingSpaces(orig, State()) == TrailingSpaces(orig, s)
        decreases |orig| - pos
      {
        KeepOne(orig);
        Original(orig, 0);
      }
    }

    /** `*out++= *pos++` */
    method KeepOne(orig: seq<byte>)
      requires Valid(orig) && pos < |orig|
      modifies this`pos, this`out, line
      ensures Valid(orig) && State() == old(State()).(pend := old(State()).pend + [orig[old(pos)]], pos := old(pos) + 1)
      ensures out == old(out) + 1
    {
      Original(orig, 0);
      var b := line[pos];
      AdvanceBy(orig, 1);
      Put(orig, b);
    }

    /** Pass over the two bytes at the read cursor, keeping them if comments are kept. */
    method PassTwo(orig: seq<byte>, a: byte, b: byte)
      requires Valid(orig) && pos + 2 <= |orig|
      modifies this`pos, this`out, line
      ensures Valid(orig) && 0 < pos
      ensures
        var s := old(State());
        State() == s.(pend := if settings.preserveComments then s.pend + [a, b] else s.pend, pos := s.pos + 2)
    {
      if settings.preserveComments {
        KeepTwo(orig, a, b);
      } else {
        AdvanceBy(orig, 2);
      }
    }

    method OpenCommentBranch(orig: seq<byte>)
      requires Valid(orig) && pos + 2 <= |orig|
      modifies this`pos, this`out, this`buffer, this`mlComment, line
      ensures Valid(orig) && State() == OpenComment(settings, old(State()))
    {
      PassTwo(orig, SLASH, STAR);
      mlComment := true;
      FlushLine(orig);
    }

    method CloseCommentBranch(orig: seq<byte>)
      requires Valid(orig) && pos + 2 <= |orig|
      modifies this`pos, this`out, this`buffer, this`mlComment, this`needSpace, line
      ensures Valid(orig) && State() == CloseComment(settings, old(State()))
    {
      PassTwo(orig, STAR, SLASH);
      mlComment := false;
      FlushLine(orig);
      needSpace := true;
    }

    method AddByteBranch(orig: seq<byte>)
      requires Valid(orig) && pos < |orig|
      modifies this`pos, this`out, this`inString, this`needSpace, this`ssComment, line
      ensures Valid(orig) && State() == AddByte(settings, orig, old(State()))
    {
      Original(orig, 0);
      var b := line[pos];
      Mark(orig, b);
      AdvanceBy(orig, 1);
      if !mlComment || settings.preserveComments {
        PutSpaced(orig, b);
      }
    }

    method Mark(orig: seq<byte>, b: byte)
      requires Valid(orig) && pos < |orig| && b == orig[pos]
      modifies this`inString, this`ssComment
      ensures Valid(orig) && State() == Marked(orig, old(State()))
    {
      var opens := CommentStartAt(orig, true);
      var ends := CommentEndAt(orig, pos);
      if inString == 0 && opens {
        ssComment := true;
      } else if inString == 0 && ssComment && ends {
        ssComment := false;
      }
      if b == inString {
        inString := 0;
      } else if !mlComment && inString == 0 && IsQuote(b) {
        inString := b;
      }
    }

    /** Put a byte, after the space that is owed. */
    method PutSpaced(orig: seq<byte>, b: byte)
      requires Valid(orig) && out < pos && (needSpace ==> out + 1 < pos)
      modifies this`out, this`needSpace, line
      ensures Valid(orig)
      ensures
        var s := old(State());
        State() == s.(pend := s.pend + (if s.needSpace && !IsSpace(b) then [SPACE, b] else [b]), needSpace := false)
    {
      var owed := needSpace;
      needSpace := false;
      if owed && !IsSpace(b) {
        Put(orig, SPACE);
      }
      Put(orig, b);
      assert line[..out] == old(line[..out]) + (if owed && !IsSpace(b) then [SPACE, b] else [b]);
    }

    /** Whether a comment opens at the read cursor, for the server or for nobody. */
    method CommentStartAt(orig: seq<byte>, forServer: bool) returns (r: bool)
      requires Valid(orig) && pos < |orig|
      ensures r == (orig[pos] == SLASH && ByteAt(orig, pos + 1) == STAR && (ByteAt(orig, pos + 2) == BANG) == forServer)
    {
      Original(orig, 0);
      if line[pos] != SLASH {
        return false;
      }
      Original(orig, 1);
      if line[pos + 1] != STAR {
        return false;
      }
      Original(orig, 2);
      return (line[pos + 2] == BANG) == forServer;
    }

    method MultiByteBranch(orig: seq<byte>)
      requires Valid(orig) && Complete(orig) && pos < |orig| && 128 <= orig[pos]
      modifies this`pos, this`out, line
      ensures Valid(orig) && State() == MultiByte(settings, orig, old(State()))
    {
      Original(orig, 0);
      var length := SequenceLength(line[pos]);
      if !mlComment || settings.preserveComments {
        KeepMany(orig, length);
      } else {
        AdvanceBy(orig, length);
      }
    }

    method KeepMany(orig: seq<byte>, length: nat)
      requires Valid(orig) && pos + length <= |orig|
      modifies this`pos, this`out, line
      ensures Valid(orig) && State() == Kept(orig, old(State()), length)
    {
      ghost var s := State();
      var k := 0;
      while k < length
        invariant k <= length && Valid(orig) && pos + length - k <= |orig|
        invariant Kept(orig, State(), length - k) == Kept(orig, s, length)
      {
        KeptOneMore(orig, State(), length - k);
        KeepOne(orig);
        k := k + 1;
      }
    }

    /** One turn of the loop. */
    method TakeTurn(orig: seq<byte>) returns (t: Turn)
      requires Valid(orig) && Complete(orig) && pos < |orig|
      modifies this, line
      ensures Valid(orig) && Outcomes(t, State(), log, Step(world, settings, orig, old(State())))
    {
      Original(orig, 0);
      var b := line[pos];
      if !settings.preserveComments && IsSpace(b) && out == 0 && buffer == [] {
        AdvanceBy(orig, 1);
        return GoOn;
      }
      if 128 <= b && SequenceLength(b) > 0 {
        MultiByteBranch(orig);
        return GoOn;
      }
      if !mlComment && b == BACKSLASH && !(inString != 0 && settings.noBackslashEscapes) {
        t := EscapeBranch(orig);
        return;
      }
      t := PlainTurn(orig);
    }

    method PlainTurn(orig: seq<byte>) returns (t: Turn)
      requires Valid(orig) && pos < |orig|
      modifies this, line
      ensures Valid(orig) && Outcomes(t, State(), log, Plain(world, settings, orig, old(State())))
    {
      var delimits := AtDelim(orig, pos);
      if !mlComment && inString == 0 && delimits {
        t := DelimiterBranch(orig);
        return;
      }
      var comments := LineCommentAt(orig, pos);
      if !mlComment && inString == 0 && comments {
        t := LineCommentBranch(orig);
        return;
      }
      InsideTurn(orig);
      return GoOn;
    }

    method InsideTurn(orig: seq<byte>)
      requires Valid(orig) && pos < |orig|
      modifies this, line
      ensures Valid(orig) && log == old(log) && State() == Inside(settings, orig, old(State()))
    {
      var opens := CommentStartAt(orig, false);
      var closes := CommentEndAt(orig, pos);
      if inString == 0 && opens {
        OpenCommentBranch(orig);
      } else if mlComment && !ssComment && closes {
        CloseCommentBranch(orig);
      } else {
        AddByteBranch(orig);
      }
    }

    /** A line comes in: editing the line in place does what reading an unchanging line does. */
    method Add(orig: seq<byte>) returns (r: Result)
      requires Valid(orig) && Complete(orig) && pos == out == 0 && !needSpace && !ssComment
      modifies this, line
      ensures r == Lexed(world, settings, orig, old(State()))
    {
      if line[0] == 0 && buffer == [] {
        Original(orig, 0);
        return Done(buffer, inString, mlComment, delimiter, log);
      }
      while pos < |orig|
        invariant Valid(orig)
        invariant Lexed(world, settings, orig, State()) == Lexed(world, settings, orig, old(State()))
        decreases |orig| - pos
      {
        var t := TakeTurn(orig);
        match t
        case QuitNow => return Stopped(log);
        case Leave => 
          r := FinishLine(orig);
          return;
        case GoOn =>
      }
      r := FinishLine(orig);
    }

    /** What was accepted of the line goes into the buffer. */
    method FinishLine(orig: seq<byte>) returns (r: Result)
      requires Valid(orig)
      modifies this`out, this`buffer, line
      ensures r == Finish(settings, old(State()))
    {
      if out != 0 || buffer != [] {
        ghost var pend := line[..out];
        line[out] := NEWLINE;
        out := out + 1;
        assert line[..out] == pend + [NEWLINE];
        if |buffer| + out > settings.maxInputLine {
          return TooLong(log);
        }
        if !mlComment || settings.preserveComments {
          buffer := buffer + line[..out];
        }
      }
      return Done(buffer, inString, mlComment, delimiter, log);
    }
  }

  /** How a branch leaves the loop, against what the lexer on the unchanged line does. */
  ghost predicate Outcomes(t: Turn, s: Lex, log: seq<Event>, o: Outcome) {
    match t
    case GoOn => o == Next(s)
    case Leave => o == Break(s)
    case QuitNow => o == Quit(log)
  }

  lemma KeptOneMore(line: seq<byte>, s: Lex, n: nat)
    requires 0 < n && s.pos + n <= |line|
    ensures Kept(line, s, n) == Kept(line, s.(pend := s.pend + [line[s.pos]], pos := s.pos + 1), n - 1)
  {
  }

  lemma MismatchAt(line: seq<byte>, i: nat, delimiter: seq<byte>, k: nat)
    requires k < |delimiter| && i + k <= |line| && (i + k < |line| ==> line[i + k] != delimiter[k])
    ensures !MatchesAt(line, i, delimiter)
  {
    assert i + |delimiter| <= |line| ==> line[i..i + |delimiter|][k] == line[i + k];
  }
}
