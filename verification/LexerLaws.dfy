/** What the line lexer makes of strings and of comments (client/drizzle.cc, add_line). */
module LexerLaws {
  import opened Basics
  import opened LineLexer

  /** From two states the rest of the line comes to the same. */
  ghost predicate Same(w: World, c: Settings, line: seq<byte>, s: Lex, t: Lex) {
    Complete(line) && s.pos <= |line| && t.pos <= |line| && s.delimiter != [] && t.delimiter != []
    && Lexed(w, c, line, s) == Lexed(w, c, line, t)
  }

  lemma Then(w: World, c: Settings, line: seq<byte>, s: Lex, t: Lex, u: Lex)
    requires Same(w, c, line, s, t) && Same(w, c, line, t, u)
    ensures Same(w, c, line, s, u)
  {
  }

  lemma OneTurn(w: World, c: Settings, line: seq<byte>, s: Lex, t: Lex)
    requires Complete(line) && s.pos < |line| && s.delimiter != [] && Step(w, c, line, s) == Next(t)
    ensures Same(w, c, line, s, t)
  {
  }

  /** A byte that starts a character of several. */
  predicate Leads(b: byte) { 128 <= b && SequenceLength(b) > 0 }

  // -------------------------------------------------------------------------
  // Strings.

  /** An open string stands in a statement that has begun, outside comments and with no space owed;
      and a comment that is not kept leaves nothing pending. */
  predicate Sane(c: Settings, s: Lex) {
    && (s.inString != 0 ==> !s.mlComment && !s.needSpace && |s.buffer| + |s.pend| > 0)
    && (s.mlComment && !c.preserveComments ==> s.pend == [])
  }

  /** Every turn keeps it so. */
  lemma TurnsKeepSane(w: World, c: Settings, line: seq<byte>, s: Lex)
    requires Complete(line) && s.pos < |line| && s.delimiter != [] && Sane(c, s)
    ensures
      var o := Step(w, c, line, s);
      (o.Next? ==> Sane(c, o.s)) && (o.Break? ==> Sane(c, o.s))
  {
    if Leads(line[s.pos]) {
      KeptIsCopied(line, s, SequenceLength(line[s.pos]));
    }
    if !s.mlComment {
      EscapesKeepSane(w, c, line, s);
    }
    PlainKeepsSane(w, c, line, s);
  }

  lemma EscapesKeepSane(w: World, c: Settings, line: seq<byte>, s: Lex)
    requires s.pos < |line| && s.delimiter != [] && Sane(c, s) && !s.mlComment
    ensures
      var o := Escape(w, line, s);
      (o.Next? ==> Sane(c, o.s)) && (o.Break? ==> Sane(c, o.s))
  {
  }

  lemma PlainKeepsSane(w: World, c: Settings, line: seq<byte>, s: Lex)
    requires s.pos < |line| && s.delimiter != [] && Sane(c, s)
    ensures
      var o := Plain(w, c, line, s);
      (o.Next? ==> Sane(c, o.s)) && (o.Break? ==> Sane(c, o.s))
  {
    var t := AddByte(c, line, s);
    assert Sane(c, t);
    if s.inString == 0 && !s.mlComment && MatchesAt(line, s.pos, s.delimiter) {
      var e := EndOfStatement(c, line, s.(pos := s.pos + |s.delimiter|));
      TrailingSpacesOutside(line, s.(pos := s.pos + |s.delimiter|));
      assert e.inString == 0 && !e.mlComment;
    }
  }

  lemma {:induction false} TrailingSpacesOutside(line: seq<byte>, s: Lex)
    requires s.pos <= |line|
    ensures TrailingSpaces(line, s).inString == s.inString && TrailingSpaces(line, s).mlComment == s.mlComment
    decreases |line| - s.pos
  {
    if s.pos < |line| && IsSpace(line[s.pos]) {
      TrailingSpacesOutside(line, s.(pend := s.pend + [line[s.pos]], pos := s.pos + 1));
    }
  }

  /** Where the next line starts. */
  function NextLine(r: Result): Lex
    requires r.Done?
  {
    Lex(0, [], r.buffer, r.inString, r.mlComment, false, false, r.delimiter, r.log)
  }

  /** The end of the line keeps it so for the next one. */
  lemma LinesKeepSane(c: Settings, s: Lex)
    requires Sane(c, s)
    ensures Finish(c, s).Done? ==> Sane(c, NextLine(Finish(c, s)))
  {
  }

  /** The state after `n` turns on a line, if there are as many. */
  function Turns(w: World, c: Settings, line: seq<byte>, s: Lex, n: nat): Option<Lex>
    requires Complete(line) && s.pos <= |line| && s.delimiter != []
    decreases n
  {
    if n == 0 then Some(s)
    else if s.pos == |line| || !Step(w, c, line, s).Next? then None
    else Turns(w, c, line, Step(w, c, line, s).s, n - 1)
  }

  lemma {:induction false} RunsKeepSane(w: World, c: Settings, line: seq<byte>, s: Lex, n: nat)
    requires Complete(line) && s.pos <= |line| && s.delimiter != [] && Sane(c, s)
    ensures Turns(w, c, line, s, n).Some? ==> Sane(c, Turns(w, c, line, s, n).value)
    decreases n
  {
    if n != 0 && s.pos < |line| && Step(w, c, line, s).Next? {
      TurnsKeepSane(w, c, line, s);
      RunsKeepSane(w, c, line, Step(w, c, line, s).s, n - 1);
    }
  }

  lemma {:induction false} WholeLinesKeepSane(w: World, c: Settings, line: seq<byte>, s: Lex)
    requires Complete(line) && s.pos <= |line| && s.delimiter != [] && Sane(c, s)
    ensures Lexed(w, c, line, s).Done? ==>
      Sane(c, NextLine(Lexed(w, c, line, s))) && Lexed(w, c, line, s).delimiter != []
    decreases |line| - s.pos
  {
    if s.pos == |line| {
      LinesKeepSane(c, s);
    } else {
      TurnsKeepSane(w, c, line, s);
      match Step(w, c, line, s)
      case Next(t) => WholeLinesKeepSane(w, c, line, t);
      case Break(t) => BreaksKeepDelimiter(w, c, line, s); LinesKeepSane(c, t);
      case Quit(_) =>
    }
  }

  lemma BreaksKeepDelimiter(w: World, c: Settings, line: seq<byte>, s: Lex)
    requires Complete(line) && s.pos < |line| && s.delimiter != []
    ensures Step(w, c, line, s).Break? ==> Step(w, c, line, s).s.delimiter != []
  {
  }

  /** The state that lines leave behind one after the other, unless the client stops. */
  function Lines(w: World, c: Settings, lines: seq<seq<byte>>, s: Lex): Option<Lex>
    requires (forall line <- lines :: Complete(line)) && s.delimiter != []
    decreases |lines|
  {
    if lines == [] then Some(s)
    else
      var start := s.(pos := 0);
      match Lexed(w, c, lines[0], start)
      case Done(_, _, _, delimiter, _) =>
        if delimiter == [] then None else Lines(w, c, lines[1..], NextLine(Lexed(w, c, lines[0], start)))
      case _ => None
  }

  /** From a client that has read nothing, every state on every line is so. */
  lemma {:induction false} EveryStateIsSane(w: World, c: Settings, lines: seq<seq<byte>>, line: seq<byte>, s: Lex,
                                            n: nat)
    requires (forall l <- lines :: Complete(l)) && Complete(line)
    requires s.pos == 0 && s.delimiter != [] && Sane(c, s)
    ensures
      var start := Lines(w, c, lines, s);
      start.Some? ==>
        && start.value.pos == 0 && start.value.delimiter != []
        && (Turns(w, c, line, start.value, n).Some? ==> Sane(c, Turns(w, c, line, start.value, n).value))
    decreases |lines|
  {
    if lines == [] {
      RunsKeepSane(w, c, line, s, n);
    } else {
      WholeLinesKeepSane(w, c, lines[0], s);
      var r := Lexed(w, c, lines[0], s);
      if r.Done? {
        EveryStateIsSane(w, c, lines[1..], line, NextLine(r), n);
      }
    }
  }

  /** How many bytes of a string are taken at once: a character, or a backslash and what it escapes. */
  function Unit(c: Settings, line: seq<byte>, i: nat): (n: nat)
    requires i < |line|
    ensures 1 <= n
  {
    if Leads(line[i]) then SequenceLength(line[i])
    else if line[i] == BACKSLASH && !c.noBackslashEscapes then 2
    else 1
  }

  /** The text up to `end` does not close the string: no unit in it is the quote. */
  predicate StaysQuoted(c: Settings, line: seq<byte>, i: nat, end: nat, quote: byte)
    requires i <= end <= |line|
    decreases end - i
  {
    i < end ==>
      && (line[i] != quote || Leads(line[i])) && i + Unit(c, line, i) <= end
      && StaysQuoted(c, line, i + Unit(c, line, i), end, quote)
  }

  lemma QuotedUnit(w: World, c: Settings, line: seq<byte>, s: Lex)
    requires Complete(line) && s.pos < |line| && s.delimiter != [] && Sane(c, s) && s.inString != 0
    requires (line[s.pos] != s.inString || Leads(line[s.pos])) && s.pos + Unit(c, line, s.pos) <= |line|
    ensures
      var t := Kept(line, s, Unit(c, line, s.pos));
      Same(w, c, line, s, t) && Sane(c, t) && t.pos == s.pos + Unit(c, line, s.pos) && t.inString == s.inString
  {
    var t := Kept(line, s, Unit(c, line, s.pos));
    KeptIsCopied(line, s, Unit(c, line, s.pos));
    OneTurn(w, c, line, s, t);
    TurnsKeepSane(w, c, line, s);
  }

  /** Inside quotes nothing but the closing quote means anything: up to there delimiters, comments,
      spaces, escapes and characters of any length go into the statement as they are. */
  lemma {:induction false} QuotedTextIsKept(w: World, c: Settings, line: seq<byte>, s: Lex, end: nat, after: Lex)
    requires Complete(line) && s.pos <= end <= |line| && s.delimiter != [] && Sane(c, s) && s.inString != 0
    requires StaysQuoted(c, line, s.pos, end, s.inString) && after == Kept(line, s, end - s.pos)
    ensures Same(w, c, line, s, after)
    decreases end - s.pos
  {
    if s.pos < end {
      var n := Unit(c, line, s.pos);
      var t := Kept(line, s, n);
      QuotedUnit(w, c, line, s);
      KeptTwice(line, s, n, end - t.pos);
      QuotedTextIsKept(w, c, line, t, end, after);
      Then(w, c, line, s, t, after);
    }
  }

  lemma {:induction false} KeptTwice(line: seq<byte>, s: Lex, m: nat, n: nat)
    requires s.pos + m + n <= |line|
    ensures Kept(line, Kept(line, s, m), n) == Kept(line, s, m + n)
    decreases m
  {
    if m > 0 {
      KeptTwice(line, s.(pend := s.pend + [line[s.pos]], pos := s.pos + 1), m - 1, n);
    }
  }

  // -------------------------------------------------------------------------
  // Comments that are not kept.

  predicate Opens(line: seq<byte>, i: nat) {
    ByteAt(line, i) == SLASH && ByteAt(line, i + 1) == STAR
  }

  predicate Closes(line: seq<byte>, i: nat) {
    ByteAt(line, i) == STAR && ByteAt(line, i + 1) == SLASH
  }

  /** How reading goes on inside a comment. `ss` is set by an inner opening of a server-side comment. */
  datatype Turn = On(pos: nat, ss: bool) | End

  function CommentTurn(line: seq<byte>, i: nat, ss: bool): (t: Turn)
    requires Complete(line) && i < |line|
    ensures t.On? ==> i < t.pos <= |line|
  {
    if Leads(line[i]) then On(i + SequenceLength(line[i]), ss)
    else if Opens(line, i) then (if ByteAt(line, i + 2) == BANG then On(i + 1, true) else On(i + 2, ss))
    else if Closes(line, i) then (if ss then On(i + 1, false) else End)
    else On(i + 1, ss)
  }

  /** Where the comment ends for the client, if it does on this line. */
  function CommentEnd(line: seq<byte>, i: nat, ss: bool): (r: Option<nat>)
    requires Complete(line) && i <= |line|
    ensures r.Some? ==> i + 2 <= r.value <= |line| && Closes(line, r.value - 2)
    decreases |line| - i
  {
    if i == |line| then None
    else match CommentTurn(line, i, ss)
      case End => Some(i + 2)
      case On(j, ss') => CommentEnd(line, j, ss')
  }

  predicate Commented(c: Settings, s: Lex) {
    s.delimiter != [] && s.inString == 0 && s.mlComment && !c.preserveComments && s.pend == []
  }

  /** Past the end of the comment. */
  function Closed(s: Lex, e: nat): Lex { s.(pos := e, mlComment := false, needSpace := true, ssComment := false) }

  lemma TurnInComment(w: World, c: Settings, line: seq<byte>, s: Lex)
    requires Complete(line) && s.pos < |line| && Commented(c, s)
    ensures
      match CommentTurn(line, s.pos, s.ssComment)
      case End => Same(w, c, line, s, Closed(s, s.pos + 2))
      case On(j, ss) => Same(w, c, line, s, s.(pos := j, ssComment := ss))
  {
    assert s.buffer + [] == s.buffer;
    match CommentTurn(line, s.pos, s.ssComment)
    case End => OneTurn(w, c, line, s, Closed(s, s.pos + 2));
    case On(j, ss) => OneTurn(w, c, line, s, s.(pos := j, ssComment := ss));
  }

  /** The comment comes to its end at `end`, or the rest of the line adds nothing. */
  ghost predicate Skips(w: World, c: Settings, line: seq<byte>, s: Lex, end: Option<nat>) {
    Complete(line) && s.pos <= |line| && s.delimiter != [] &&
    match end
    case Some(e) => Same(w, c, line, s, Closed(s, e))
    case None => Lexed(w, c, line, s) == Finish(c, s)
  }

  lemma EndSkips(w: World, c: Settings, line: seq<byte>, s: Lex)
    requires Complete(line) && s.pos < |line| && Commented(c, s) && CommentTurn(line, s.pos, s.ssComment).End?
    ensures Skips(w, c, line, s, Some(s.pos + 2))
  {
    TurnInComment(w, c, line, s);
  }

  lemma TurnSkips(w: World, c: Settings, line: seq<byte>, s: Lex, j: nat, ss: bool, end: Option<nat>)
    requires Complete(line) && s.pos < |line| && Commented(c, s) && CommentTurn(line, s.pos, s.ssComment) == On(j, ss)
    requires Skips(w, c, line, s.(pos := j, ssComment := ss), end)
    ensures Skips(w, c, line, s, end)
  {
    TurnInComment(w, c, line, s);
  }

  lemma AtLineEnd(w: World, c: Settings, line: seq<byte>, s: Lex)
    requires Complete(line) && s.pos == |line| && s.delimiter != []
    ensures Skips(w, c, line, s, None)
  {
  }

  lemma EndsOneTurnLater(line: seq<byte>, i: nat, ss: bool)
    requires Complete(line) && i < |line|
    ensures CommentEnd(line, i, ss) ==
      match CommentTurn(line, i, ss)
      case End => Some(i + 2)
      case On(j, ss') => CommentEnd(line, j, ss')
  {
  }

  /** The text of a comment that is not kept changes nothing up to its end. */
  lemma {:induction false} CommentIsSkipped(w: World, c: Settings, line: seq<byte>, s: Lex, end: Option<nat>)
    requires Complete(line) && s.pos <= |line| && Commented(c, s) && end == CommentEnd(line, s.pos, s.ssComment)
    ensures Skips(w, c, line, s, end)
    decreases |line| - s.pos
  {
    if s.pos == |line| {
      AtLineEnd(w, c, line, s);
    } else {
      EndsOneTurnLater(line, s.pos, s.ssComment);
      match CommentTurn(line, s.pos, s.ssComment)
      case End => EndSkips(w, c, line, s);
      case On(j, ss) =>
        CommentIsSkipped(w, c, line, s.(pos := j, ssComment := ss), end);
        TurnSkips(w, c, line, s, j, ss, end);
    }
  }

  lemma TurnThatOpens(w: World, c: Settings, line: seq<byte>, s: Lex)
    requires Complete(line) && s.pos < |line| && s.delimiter != [] && !MatchesAt(line, s.pos, s.delimiter)
    requires Opens(line, s.pos) && ByteAt(line, s.pos + 2) != BANG && s.inString == 0 && !s.mlComment
    requires !c.preserveComments
    ensures Step(w, c, line, s) == Next(Flush(s).(mlComment := true, pos := s.pos + 2))
  {
  }

  /** A whole comment that is not kept leaves nothing behind but the space that is owed. */
  lemma CommentIsASpace(w: World, c: Settings, line: seq<byte>, s: Lex, end: nat)
    requires Complete(line) && s.pos < |line| && s.delimiter != [] && !MatchesAt(line, s.pos, s.delimiter)
    requires Opens(line, s.pos) && ByteAt(line, s.pos + 2) != BANG && s.inString == 0 && !s.mlComment
    requires !c.preserveComments && CommentEnd(line, s.pos + 2, s.ssComment) == Some(end)
    ensures Same(w, c, line, s, Closed(Flush(s), end))
  {
    var t := Flush(s).(mlComment := true, pos := s.pos + 2);
    TurnThatOpens(w, c, line, s);
    OneTurn(w, c, line, s, t);
    CommentIsSkipped(w, c, line, t, Some(end));
    Then(w, c, line, s, t, Closed(t, end));
  }

  /** The owed space is paid by a turn that adds to the statement, before what it adds, if and only if the
      turn is neither at a character of several bytes nor at a backslash. */
  lemma OwedSpaceIsPaidIff(w: World, c: Settings, line: seq<byte>, s: Lex)
    requires Complete(line) && s.pos < |line| && s.delimiter != []
    requires s.needSpace && s.inString == 0 && !s.mlComment && !c.preserveComments
    ensures
      var o := Step(w, c, line, s);
      o.Next? && s.pend < o.s.pend ==>
        && o.s.buffer == s.buffer
        && (IsSpace(o.s.pend[|s.pend|]) <==> !Leads(line[s.pos]) && line[s.pos] != BACKSLASH)
  {
    if Leads(line[s.pos]) {
      KeptIsCopied(line, s, SequenceLength(line[s.pos]));
    } else if line[s.pos] == BACKSLASH {
      assert Step(w, c, line, s) == Escape(w, line, s);
    } else if MatchesAt(line, s.pos, s.delimiter) {
      assert EndOfStatement(c, line, s.(pos := s.pos + |s.delimiter|)).pend == [];
    }
  }

  /** So a comment that is not kept separates what follows it on the line from what stands before it if
      and only if the first to follow is neither such a character nor an escape. */
  lemma CommentSeparatesIff(w: World, c: Settings, line: seq<byte>, s: Lex, end: nat)
    requires Complete(line) && s.pos <= end < |line| && s.delimiter != []
    requires s.inString == 0 && !c.preserveComments
    ensures
      var t := Closed(Flush(s), end);
      var o := Step(w, c, line, t);
      o.Next? && o.s.pend != [] ==>
        && o.s.buffer == s.buffer + s.pend
        && (IsSpace(o.s.pend[0]) <==> !Leads(line[end]) && line[end] != BACKSLASH)
  {
    var t := Closed(Flush(s), end);
    OwedSpaceIsPaidIff(w, c, line, t);
  }

  /** An e with an accent after a comment is joined to what stood before it, and the space comes between it and
      what follows. */
  lemma SpaceMisplaced(w: World, c: Settings, s: Lex)
    requires s.pos == 0 && s.pend == [] && s.needSpace && s.inString == 0 && !s.mlComment && !s.ssComment
    requires !c.preserveComments && s.delimiter != [] && s.delimiter[0] != 98
    ensures
      var line: seq<byte> := [195, 169, 98];
      Complete(line) && Turns(w, c, line, s, 2).Some? && Turns(w, c, line, s, 2).value.pend == [195, 169, SPACE, 98]
  {
    var line: seq<byte> := [195, 169, 98];
    var t := s.(pend := [195, 169], pos := 2);
    AccentTurn(w, c, line, s);
    LetterTurn(w, c, line, t);
    assert Turns(w, c, line, t, 1) == Some(Step(w, c, line, t).s);
  }

  lemma AccentTurn(w: World, c: Settings, line: seq<byte>, s: Lex)
    requires line == [195, 169, 98] && s.pos == 0 && s.pend == [] && s.delimiter != [] && !s.mlComment
    ensures Complete(line) && Step(w, c, line, s) == Next(s.(pend := [195, 169], pos := 2))
  {
    KeptIsCopied(line, s, 2);
    assert line[0..2] == [195, 169];
  }

  lemma LetterTurn(w: World, c: Settings, line: seq<byte>, s: Lex)
    requires line == [195, 169, 98] && s.pos == 2 && s.pend == [195, 169] && s.needSpace
    requires s.inString == 0 && !s.mlComment && !s.ssComment && s.delimiter != [] && s.delimiter[0] != 98
    ensures Complete(line)
    ensures Step(w, c, line, s) == Next(s.(pend := [195, 169, SPACE, 98], pos := 3, needSpace := false))
  {
    assert !MatchesAt(line, 2, s.delimiter);
    assert !StartsLineComment(line, 2);
  }

  // -------------------------------------------------------------------------
  // Which end of a comment is taken.

  /** Characters of several bytes have no ASCII byte in them, as in UTF-8. */
  predicate Continued(line: seq<byte>) {
    forall i, k :: 0 <= i < k < |line| && Leads(line[i]) && k < i + SequenceLength(line[i]) ==> 128 <= line[k]
  }

  /** The first end of a comment from `i` on stands at `j`. */
  predicate FirstEnd(line: seq<byte>, i: nat, j: nat) {
    i <= j && Closes(line, j) && forall k :: i <= k < j ==> !Closes(line, k)
  }

  /** The opening of a server-side comment stands before `j`. */
  predicate ServerOpening(line: seq<byte>, i: nat, j: nat) {
    exists k :: i <= k < j && Opens(line, k) && ByteAt(line, k + 2) == BANG
  }

  /** A comment ends at its first end if and only if its text neither contains the opening of a
      server-side comment nor ends in a slash, which makes an opening with the end's star; nor was the
      opening of a server-side comment read before. */
  lemma {:induction false} FirstEndIsTakenIff(line: seq<byte>, i: nat, ss: bool, j: nat)
    requires Complete(line) && Continued(line) && FirstEnd(line, i, j)
    ensures CommentEnd(line, i, ss) == Some(j + 2)
       <==> !ss && !ServerOpening(line, i, j) && !(i < j && line[j - 1] == SLASH)
    decreases j - i
  {
    if i < j {
      assert !Closes(line, i);
      var t := CommentTurn(line, i, ss);
      if Leads(line[i]) {
        CharacterStops(line, i, j);
      } else if Opens(line, i) && ByteAt(line, i + 2) != BANG {
        assert !Opens(line, i + 1);
      }
      if t.pos <= j {
        FirstEndIsTakenIff(line, t.pos, t.ss, j);
        NoOpeningBetween(line, i, t, ss, j);
      }
    }
  }

  lemma CharacterStops(line: seq<byte>, i: nat, j: nat)
    requires Complete(line) && Continued(line) && i < j < |line| && Leads(line[i]) && line[j] < 128
    ensures i + SequenceLength(line[i]) <= j
    ensures forall k :: i <= k < i + SequenceLength(line[i]) ==> 128 <= line[k]
  {
  }

  /** A turn passes over no opening of a server-side comment without noting it. */
  lemma NoOpeningBetween(line: seq<byte>, i: nat, t: Turn, ss: bool, j: nat)
    requires Complete(line) && Continued(line) && i < j && Closes(line, j)
    requires t == CommentTurn(line, i, ss) && t.On? && t.pos <= j
    ensures ServerOpening(line, i, j)
       <==> ServerOpening(line, t.pos, j) || (Opens(line, i) && ByteAt(line, i + 2) == BANG)
  {
    if Leads(line[i]) {
      CharacterStops(line, i, j);
    }
    if k :| i <= k < j && Opens(line, k) && ByteAt(line, k + 2) == BANG {
      assert k == i || k >= t.pos;
    }
  }

  /** In a comment that holds the opening of a server-side comment, and in one whose text ends in a
      slash, the first end is passed over. */
  lemma FirstEndPassedOver()
    ensures
      var server, slash := [SLASH, STAR, BANG, STAR, SLASH], [SLASH, STAR, SLASH];
      && FirstEnd(server, 0, 3) && CommentEnd(server, 0, false) == None
      && FirstEnd(slash, 0, 1) && CommentEnd(slash, 0, false) == None
  {
    var server, slash := [SLASH, STAR, BANG, STAR, SLASH], [SLASH, STAR, SLASH];
    assert CommentTurn(server, 0, false) == On(1, true) && CommentTurn(server, 1, true) == On(2, true);
    assert CommentTurn(server, 2, true) == On(3, true) && CommentTurn(server, 3, true) == On(4, false);
    assert CommentTurn(server, 4, false) == On(5, false);
    assert CommentEnd(server, 5, false) == None && CommentEnd(server, 4, false) == None;
    assert CommentEnd(server, 3, true) == None && CommentEnd(server, 2, true) == None;
    assert CommentEnd(server, 1, true) == None;
    assert CommentTurn(slash, 0, false) == On(2, false) && CommentTurn(slash, 2, false) == On(3, false);
  }
}
