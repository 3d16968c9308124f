/** What the line lexer does at each kind of byte, said without its branches (client/drizzle.cc, add_line). */
module StatementLaws {
  import opened Basics
  import opened LineLexer
  import opened LexerLaws

  /** The statement so far. */
  function Text(s: Lex): seq<byte> { s.buffer + s.pend }

  /** A `#`, or `--` and white space. */
  predicate LineCommentAt(line: seq<byte>, i: nat) {
    || (i < |line| && line[i] == 35)
    || (i + 2 < |line| && line[i] == 45 && line[i + 1] == 45 && (line[i + 2] == 32 || 9 <= line[i + 2] <= 13))
  }

  predicate DelimiterAt(line: seq<byte>, i: nat, delimiter: seq<byte>) {
    i + |delimiter| <= |line| && forall k :: 0 <= k < |delimiter| ==> line[i + k] == delimiter[k]
  }

  /** Outside strings and comments, not at a character of several bytes or a backslash, and not at white
      space that is passed over before a statement begins. */
  predicate InTheOpen(c: Settings, line: seq<byte>, s: Lex)
    requires s.pos < |line|
  {
    && s.inString == 0 && !s.mlComment && !(192 <= line[s.pos] < 248) && line[s.pos] != 92
    && !(!c.preserveComments && Text(s) == [] && (line[s.pos] == 32 || 9 <= line[s.pos] <= 13))
  }

  lemma SameDelimiter(line: seq<byte>, i: nat, delimiter: seq<byte>)
    ensures DelimiterAt(line, i, delimiter) <==> MatchesAt(line, i, delimiter)
  {
    if i + |delimiter| <= |line| {
      var part := line[i..i + |delimiter|];
      assert forall k :: 0 <= k < |delimiter| ==> part[k] == line[i + k];
    }
  }

  lemma SameComment(line: seq<byte>, i: nat)
    ensures LineCommentAt(line, i) <==> StartsLineComment(line, i)
  {
  }

  /** What is left after an event in the new state. */
  ghost predicate Happened(w: World, s: Lex, e: Event, o: Outcome, t: Lex) {
    var r := w.reply(s.log + [e]);
    if r.quit then o == Quit(s.log + [e])
    else
      && o == Next(t) && t.log == s.log + [e]
      && t.delimiter == (if r.delimiter == [] || 0 in r.delimiter then s.delimiter else r.delimiter)
      && t.inString == 0 && !t.mlComment && t.needSpace == s.needSpace && t.ssComment == s.ssComment && t.pend == []
  }

  /** A delimiter sends the statement so far, and a new one begins behind it. If comments are kept the white
      space behind the delimiter goes with the statement, and so does a comment behind that. */
  lemma DelimiterSends(w: World, c: Settings, line: seq<byte>, s: Lex) returns (end: nat, t: Lex)
    requires Complete(line) && s.pos < |line| && s.delimiter != [] && InTheOpen(c, line, s)
    requires DelimiterAt(line, s.pos, s.delimiter)
    ensures s.pos + |s.delimiter| <= end <= |line|
    ensures forall i :: s.pos + |s.delimiter| <= i < end ==> c.preserveComments && (line[i] == 32 || 9 <= line[i] <= 13)
    ensures c.preserveComments && end < |line| ==> !(line[end] == 32 || 9 <= line[end] <= 13)
    ensures
      var comment := c.preserveComments && LineCommentAt(line, end);
      var sent := s.buffer + s.pend + line[s.pos + |s.delimiter|..end] + if comment then line[end..] else [];
      && Happened(w, s, Statement(sent), Step(w, c, line, s), t)
      && (Step(w, c, line, s).Next? ==> t.buffer == [] && t.pos == if comment then |line| else end)
  {
    SameDelimiter(line, s.pos, s.delimiter);
    var p := s.(pos := s.pos + |s.delimiter|);
    end := StatementEnd(c, line, p);
    var o := Step(w, c, line, s);
    assert o == Sent(w, EndOfStatement(c, line, p));
    t := if o.Next? then o.s else s;
  }

  lemma StatementEnd(c: Settings, line: seq<byte>, p: Lex) returns (end: nat)
    requires p.pos <= |line|
    ensures p.pos <= end <= |line|
    ensures forall i :: p.pos <= i < end ==> c.preserveComments && IsSpace(line[i])
    ensures c.preserveComments && end < |line| ==> !IsSpace(line[end])
    ensures
      var comment := c.preserveComments && LineCommentAt(line, end);
      EndOfStatement(c, line, p)
      == p.(buffer := p.buffer + p.pend + line[p.pos..end] + (if comment then line[end..] else []), pend := [],
            pos := if comment then |line| else end)
  {
    end := p.pos;
    if c.preserveComments {
      end := SpacesEnd(line, p);
    }
    SameComment(line, end);
    Joined(p.buffer, p.pend, line[p.pos..end]);
    assert line[p.pos..p.pos] == [];
  }

  lemma Joined(a: seq<byte>, b: seq<byte>, x: seq<byte>)
    ensures a + (b + x) == a + b + x && a + b + [] == a + b && a + b + x + [] == a + b + x
  {
  }

  /** The spaces that are taken along. */
  lemma {:induction false} SpacesEnd(line: seq<byte>, s: Lex) returns (end: nat)
    requires s.pos <= |line|
    ensures s.pos <= end <= |line| && (end < |line| ==> !IsSpace(line[end]))
    ensures forall i :: s.pos <= i < end ==> IsSpace(line[i])
    ensures TrailingSpaces(line, s) == s.(pend := s.pend + line[s.pos..end], pos := end)
    decreases |line| - s.pos
  {
    if s.pos < |line| && IsSpace(line[s.pos]) {
      end := SpacesEnd(line, s.(pend := s.pend + [line[s.pos]], pos := s.pos + 1));
      assert line[s.pos..end] == [line[s.pos]] + line[s.pos + 1..end];
      assert (s.pend + [line[s.pos]]) + line[s.pos + 1..end] == s.pend + line[s.pos..end];
    } else {
      end := s.pos;
      assert s.pend + line[s.pos..s.pos] == s.pend;
    }
  }

  /** A byte that stands for itself. */
  predicate Ordinary(line: seq<byte>, s: Lex)
    requires s.pos < |line|
  {
    !(192 <= line[s.pos] < 248) && !s.mlComment &&
    if s.inString != 0 then line[s.pos] != 92
    else
      && line[s.pos] != 92 && !DelimiterAt(line, s.pos, s.delimiter) && !LineCommentAt(line, s.pos)
      && !(line[s.pos] == 47 && s.pos + 1 < |line| && line[s.pos + 1] == 42
           && !(s.pos + 2 < |line| && line[s.pos + 2] == 33))
  }

  /** An ordinary byte is kept, behind the space that is owed; a quote begins a string, and the same
      quote ends it. Before a statement begins white space is passed over unless comments are kept. */
  lemma OrdinaryByteIsKept(w: World, c: Settings, line: seq<byte>, s: Lex) returns (t: Lex)
    requires Complete(line) && s.pos < |line| && s.delimiter != [] && Ordinary(line, s) && 0 !in line
    ensures Step(w, c, line, s) == Next(t)
    ensures t.pos == s.pos + 1 && t.buffer == s.buffer && t.log == s.log && t.delimiter == s.delimiter && !t.mlComment
    ensures
      var b := line[s.pos];
      var space := b == 32 || 9 <= b <= 13;
      if !c.preserveComments && space && Text(s) == [] then t == s.(pos := s.pos + 1)
      else
        && t.pend == s.pend + (if s.needSpace && !space then [32] else []) + [b]
        && !t.needSpace
        && t.inString == (if s.inString != 0 then (if b == s.inString then 0 else s.inString)
                          else if b == 39 || b == 34 || b == 96 then b else 0)
  {
    SameDelimiter(line, s.pos, s.delimiter);
    SameComment(line, s.pos);
    t := Step(w, c, line, s).s;
  }

  /** So is a character of several bytes, but the owed space stays owed. */
  lemma CharacterIsKept(w: World, c: Settings, line: seq<byte>, s: Lex)
    requires Complete(line) && s.pos < |line| && s.delimiter != [] && 192 <= line[s.pos] < 248
    ensures
      var n := if line[s.pos] < 224 then 2 else if line[s.pos] < 240 then 3 else 4;
      && s.pos + n <= |line|
      && Step(w, c, line, s) == Next(if s.mlComment && !c.preserveComments then s.(pos := s.pos + n)
                                     else s.(pend := s.pend + line[s.pos..s.pos + n], pos := s.pos + n))
  {
    KeptIsCopied(line, s, SequenceLength(line[s.pos]));
  }

  /** A comment to the end of the line that is not kept leaves what stood before it. */
  lemma LineCommentIsDropped(w: World, c: Settings, line: seq<byte>, s: Lex)
    requires Complete(line) && s.pos < |line| && s.delimiter != [] && InTheOpen(c, line, s) && !c.preserveComments
    requires LineCommentAt(line, s.pos) && !DelimiterAt(line, s.pos, s.delimiter)
    ensures Lexed(w, c, line, s) == Finish(c, s)
  {
    SameDelimiter(line, s.pos, s.delimiter);
    SameComment(line, s.pos);
    assert Step(w, c, line, s) == Break(Flush(s));
    assert (s.buffer + s.pend) + [] + [NEWLINE] == s.buffer + s.pend + [NEWLINE];
  }

  /** One that is kept goes to the server with the statement it follows; alone it waits, without a newline of
      its own before it, for the next line. */
  lemma LineCommentIsKept(w: World, c: Settings, line: seq<byte>, s: Lex) returns (t: Lex)
    requires Complete(line) && s.pos < |line| && s.delimiter != [] && InTheOpen(c, line, s) && c.preserveComments
    requires LineCommentAt(line, s.pos) && !DelimiterAt(line, s.pos, s.delimiter)
    ensures
      if Text(s) == [] then
        Lexed(w, c, line, s) == Finish(c, s.(buffer := line[s.pos..], pend := []))
      else
        var e := Statement(s.buffer + s.pend + line[s.pos..]);
        if w.reply(s.log + [e]).quit then Lexed(w, c, line, s) == Stopped(s.log + [e])
        else
          && Lexed(w, c, line, s) == Finish(c, t) && t.buffer == [] && t.pend == [] && t.log == s.log + [e]
          && t.inString == 0 && !t.mlComment
          && t.delimiter == (var d := w.reply(s.log + [e]).delimiter; if d == [] || 0 in d then s.delimiter else d)
  {
    SameDelimiter(line, s.pos, s.delimiter);
    SameComment(line, s.pos);
    var o := Step(w, c, line, s);
    assert o == LineComment(w, c, line, s);
    assert [] + line[s.pos..] == line[s.pos..];
    t := if o.Break? then o.s else s;
  }

  /** What is left at the end of a line: the statement so far and a newline, unless it is too long. The
      line's part of a comment that is not kept is not left, nor is its newline. */
  lemma LineEnds(c: Settings, s: Lex)
    ensures
      var r := Finish(c, s);
      if Text(s) != [] && |Text(s)| + 1 > c.maxInputLine then r == TooLong(s.log)
      else
        && r.Done? && r.inString == s.inString && r.mlComment == s.mlComment && r.delimiter == s.delimiter
        && r.log == s.log
        && r.buffer == if Text(s) == [] then []
                       else if s.mlComment && !c.preserveComments then s.buffer
                       else Text(s) + [10]
  {
  }

  // -------------------------------------------------------------------------
  // Backslashes outside strings.

  /** At the end of the line it is dropped; `\N` and letters that are no command are kept. */
  lemma BackslashIsKept(w: World, c: Settings, line: seq<byte>, s: Lex)
    requires Complete(line) && s.pos < |line| && s.delimiter != [] && line[s.pos] == 92
    requires s.inString == 0 && !s.mlComment
    ensures
      if s.pos + 1 == |line| then Lexed(w, c, line, s) == Finish(c, s)
      else
        var d := line[s.pos + 1];
        var kept := s.(pend := s.pend + [92, d], pos := s.pos + 2);
        (d == 78 ==> Step(w, c, line, s) == Next(kept)) &&
        (d != 78 && w.command(d).None? ==>
           Step(w, c, line, s) == if w.reply(s.log + [Message(d)]).quit then Quit(s.log + [Message(d)])
                                  else Next(kept.(log := s.log + [Message(d)])))
  {
    assert Step(w, c, line, s) == Escape(w, line, s);
    if s.pos + 1 == |line| {
      assert Finish(c, s.(pos := s.pos + 1)) == Finish(c, s);
    }
  }

  /** A command gets the rest of the line from its backslash on and the statement so far; its parameters are
      passed over, up to the delimiter and with it, or in a server-side comment up to that comment's end. */
  lemma CommandMeans(w: World, c: Settings, line: seq<byte>, s: Lex) returns (t: Lex)
    requires Complete(line) && s.pos + 1 < |line| && s.delimiter != [] && line[s.pos] == 92
    requires s.inString == 0 && !s.mlComment && line[s.pos + 1] != 78 && w.command(line[s.pos + 1]).Some?
    ensures
      var o, e := Step(w, c, line, s), Command(line[s.pos + 1], line[s.pos..], Text(s));
      var takesParams := w.command(line[s.pos + 1]).value;
      && Happened(w, s, e, o, t)
      && (o.Next? ==>
            && t.buffer == w.reply(s.log + [e]).buffer && s.pos + 2 <= t.pos <= |line|
            && (!takesParams ==> t.pos == s.pos + 2)
            && (takesParams && s.ssComment ==> FirstCommentEnd(line, s.pos + 2, t.pos))
            && (takesParams && !s.ssComment ==> PastDelimiter(line, s.pos + 2, t.pos, t.delimiter)))
  {
    var o := Step(w, c, line, s);
    assert o == Escape(w, line, s) == ShortCommand(w, line, s, line[s.pos + 1], w.command(line[s.pos + 1]).value);
    t := if o.Next? then o.s else s;
    assert w.command(line[s.pos + 1]).value && o.Next? ==> t.pos == AfterParameters(line, s.pos + 2, t);
    ParametersPassed(line, s.pos + 2, t);
  }

  lemma ParametersPassed(line: seq<byte>, i: nat, s: Lex)
    requires i <= |line|
    ensures
      var j := AfterParameters(line, i, s);
      && i <= j <= |line|
      && (s.ssComment ==> FirstCommentEnd(line, i, j))
      && (!s.ssComment && s.delimiter != [] ==> PastDelimiter(line, i, j, s.delimiter))
  {
    FindsCommentEnd(line, i);
    if s.delimiter != [] {
      FindsDelimiter(line, i, s.delimiter);
    }
  }

  /** `j` is the first place from `i` on where a comment ends, or the end of the line. */
  predicate FirstCommentEnd(line: seq<byte>, i: nat, j: nat) {
    && i <= j <= |line| && (j < |line| ==> CommentEndsAt(line, j))
    && forall k :: i <= k < j ==> !CommentEndsAt(line, k)
  }

  predicate CommentEndsAt(line: seq<byte>, i: nat) { i + 1 < |line| && line[i] == 42 && line[i + 1] == 47 }

  /** `j` is right behind the first delimiter from `i` on, or the end of the line if there is none. */
  predicate PastDelimiter(line: seq<byte>, i: nat, j: nat, delimiter: seq<byte>) {
    || (j == |line| && forall k :: i <= k < |line| ==> !DelimiterAt(line, k, delimiter))
    || (i + |delimiter| <= j && DelimiterAt(line, j - |delimiter|, delimiter)
        && forall k :: i <= k < j - |delimiter| ==> !DelimiterAt(line, k, delimiter))
  }

  lemma {:induction false} FindsCommentEnd(line: seq<byte>, i: nat)
    requires i <= |line|
    ensures FirstCommentEnd(line, i, FindCommentEnd(line, i))
    decreases |line| - i
  {
    if i < |line| && !CommentEndsAt(line, i) {
      FindsCommentEnd(line, i + 1);
    }
  }

  lemma {:induction false} FindsFirst(line: seq<byte>, i: nat, delimiter: seq<byte>)
    requires i <= |line|
    ensures
      var j := FindDelimiter(line, i, delimiter);
      && (j < |line| ==> DelimiterAt(line, j, delimiter))
      && forall k :: i <= k < j ==> !DelimiterAt(line, k, delimiter)
    decreases |line| - i
  {
    SameDelimiter(line, i, delimiter);
    if i < |line| && !MatchesAt(line, i, delimiter) {
      FindsFirst(line, i + 1, delimiter);
    }
  }

  lemma FindsDelimiter(line: seq<byte>, i: nat, delimiter: seq<byte>)
    requires i <= |line| && delimiter != []
    ensures
      var j := FindDelimiter(line, i, delimiter);
      PastDelimiter(line, i, if j == |line| then j else j + |delimiter|, delimiter)
  {
    FindsFirst(line, i, delimiter);
  }

  // -------------------------------------------------------------------------
  // Comments that are kept.

  /** The opening of a kept comment goes into the statement too. */
  lemma KeptCommentOpens(w: World, c: Settings, line: seq<byte>, s: Lex) returns (t: Lex)
    requires Complete(line) && s.pos + 1 < |line| && s.delimiter != [] && InTheOpen(c, line, s) && c.preserveComments
    requires line[s.pos] == 47 && line[s.pos + 1] == 42 && !(s.pos + 2 < |line| && line[s.pos + 2] == 33)
    requires !DelimiterAt(line, s.pos, s.delimiter)
    ensures Step(w, c, line, s) == Next(t) && t.pos == s.pos + 2 && t.mlComment && Text(t) == Text(s) + [47, 42]
    ensures t.inString == 0 && t.needSpace == s.needSpace && t.ssComment == s.ssComment
    ensures t.log == s.log && t.delimiter == s.delimiter
  {
    SameDelimiter(line, s.pos, s.delimiter);
    t := Step(w, c, line, s).s;
    Joined(s.buffer, s.pend, [47, 42]);
  }

  /** From `s` on the line comes to the same as from `t`, where a comment's text was added to the statement up
      to its end, or to the end of the line. */
  ghost predicate KeptTo(w: World, c: Settings, line: seq<byte>, s: Lex, t: Lex, end: Option<nat>) {
    && Same(w, c, line, s, t) && s.pos <= t.pos <= |line|
    && t.pos == (if end.Some? then end.value else |line|)
    && Text(t) == Text(s) + line[s.pos..t.pos]
    && t.log == s.log && t.delimiter == s.delimiter && t.inString == 0
    && t.mlComment == end.None? && t.needSpace == end.Some?
  }

  /** Inside a comment that is kept. */
  predicate InKeptComment(c: Settings, s: Lex) {
    s.delimiter != [] && c.preserveComments && s.mlComment && s.inString == 0 && !s.needSpace
  }

  /** The text of a kept comment goes into the statement as it is. */
  lemma {:induction false} KeptCommentStays(w: World, c: Settings, line: seq<byte>, s: Lex, end: Option<nat>)
    returns (t: Lex)
    requires Complete(line) && s.pos <= |line| && InKeptComment(c, s) && end == CommentEnd(line, s.pos, s.ssComment)
    ensures KeptTo(w, c, line, s, t, end)
    decreases |line| - s.pos
  {
    if s.pos == |line| {
      t := s;
      NothingKept(w, c, line, s);
    } else {
      EndsOneTurnLater(line, s.pos, s.ssComment);
      var u := KeptCommentTurn(w, c, line, s);
      match CommentTurn(line, s.pos, s.ssComment)
      case End => t := u;
      case On(j, ss) =>
        t := KeptCommentStays(w, c, line, u, end);
        KeptTurnFirst(w, c, line, s, u, t, end);
    }
  }

  lemma NothingKept(w: World, c: Settings, line: seq<byte>, s: Lex)
    requires Complete(line) && s.pos == |line| && InKeptComment(c, s)
    ensures KeptTo(w, c, line, s, s, None)
  {
    assert Text(s) + line[s.pos..s.pos] == Text(s);
  }

  lemma KeptTurnFirst(w: World, c: Settings, line: seq<byte>, s: Lex, u: Lex, t: Lex, end: Option<nat>)
    requires Same(w, c, line, s, u) && s.pos <= u.pos <= |line| && Text(u) == Text(s) + line[s.pos..u.pos]
    requires u.log == s.log && u.delimiter == s.delimiter && KeptTo(w, c, line, u, t, end)
    ensures KeptTo(w, c, line, s, t, end)
  {
    Then(w, c, line, s, u, t);
    assert line[s.pos..t.pos] == line[s.pos..u.pos] + line[u.pos..t.pos];
    assert (Text(s) + line[s.pos..u.pos]) + line[u.pos..t.pos] == Text(s) + line[s.pos..t.pos];
  }

  lemma KeptCommentTurn(w: World, c: Settings, line: seq<byte>, s: Lex) returns (u: Lex)
    requires Complete(line) && s.pos < |line| && InKeptComment(c, s)
    ensures
      match CommentTurn(line, s.pos, s.ssComment)
      case End => KeptTo(w, c, line, s, u, Some(s.pos + 2))
      case On(j, ss) =>
        && Same(w, c, line, s, u) && InKeptComment(c, u) && u.pos == j && u.ssComment == ss
        && u.log == s.log && u.delimiter == s.delimiter && Text(u) == Text(s) + line[s.pos..j]
  {
    u := Step(w, c, line, s).s;
    OneTurn(w, c, line, s, u);
    if Leads(line[s.pos]) {
      KeptIsCopied(line, s, SequenceLength(line[s.pos]));
    }
    FirstBytes(line, s.pos);
    Joined(s.buffer, s.pend, line[s.pos..u.pos]);
  }

  lemma FirstBytes(line: seq<byte>, i: nat)
    requires i < |line|
    ensures line[i..i + 1] == [line[i]] && (i + 2 <= |line| ==> line[i..i + 2] == [line[i], line[i + 1]])
  {
  }

  // -------------------------------------------------------------------------
  // A whole line.

  /** Bytes that stand for themselves wherever they are outside strings. */
  predicate Plain(line: seq<byte>, i: nat, end: nat, delimiter: seq<byte>)
    requires i <= end <= |line|
  {
    forall k {:trigger line[k]} :: i <= k < end ==>
      && line[k] < 128 && line[k] !in {92, 39, 34, 96, 47, 35, 45} && !DelimiterAt(line, k, delimiter)
  }

  lemma {:induction false} PlainTextIsKept(w: World, c: Settings, line: seq<byte>, s: Lex, end: nat)
    requires Complete(line) && 0 !in line && s.pos <= end <= |line| && s.delimiter != []
    requires s.inString == 0 && !s.mlComment && !s.needSpace && !s.ssComment && Plain(line, s.pos, end, s.delimiter)
    requires Text(s) == [] && !c.preserveComments && s.pos < end ==> !(line[s.pos] == 32 || 9 <= line[s.pos] <= 13)
    ensures Same(w, c, line, s, s.(pos := end, pend := s.pend + line[s.pos..end]))
    decreases end - s.pos
  {
    if s.pos < end {
      var t := PlainByteIsKept(w, c, line, s);
      PlainTextIsKept(w, c, line, t, end);
      assert s.pend + [line[s.pos]] + line[t.pos..end] == s.pend + line[s.pos..end];
      Then(w, c, line, s, t, s.(pos := end, pend := s.pend + line[s.pos..end]));
    } else {
      assert s.pend + line[s.pos..end] == s.pend;
    }
  }

  lemma PlainByteIsKept(w: World, c: Settings, line: seq<byte>, s: Lex) returns (t: Lex)
    requires Complete(line) && 0 !in line && s.pos < |line| && s.delimiter != []
    requires s.inString == 0 && !s.mlComment && !s.needSpace && !s.ssComment
    requires Plain(line, s.pos, s.pos + 1, s.delimiter)
    requires Text(s) == [] && !c.preserveComments ==> !(line[s.pos] == 32 || 9 <= line[s.pos] <= 13)
    ensures t == s.(pos := s.pos + 1, pend := s.pend + [line[s.pos]]) && Same(w, c, line, s, t)
  {
    t := OrdinaryByteIsKept(w, c, line, s);
    OneTurn(w, c, line, s, t);
    assert s.pend + [] + [line[s.pos]] == s.pend + [line[s.pos]];
  }

  /** At the end of a line a delimiter leaves nothing for the next one. */
  lemma LastDelimiter(w: World, c: Settings, line: seq<byte>, s: Lex)
    requires Complete(line) && s.pos < |line| && s.delimiter != [] && InTheOpen(c, line, s)
    requires DelimiterAt(line, s.pos, s.delimiter) && s.pos + |s.delimiter| == |line|
    ensures
      var e := Statement(Text(s));
      var r := w.reply(s.log + [e]);
      Lexed(w, c, line, s) ==
        if r.quit then Stopped(s.log + [e])
        else Done([], 0, false, if r.delimiter == [] || 0 in r.delimiter then s.delimiter else r.delimiter, s.log + [e])
  {
    var end, u := DelimiterSends(w, c, line, s);
    assert end == |line| && line[end..end] == [];
    Joined(s.buffer, s.pend, []);
  }

  /** A line of plain text and a delimiter sends just that text, behind what earlier lines left. */
  lemma PlainStatementIsSent(w: World, c: Settings, line: seq<byte>, text: seq<byte>, s: Lex)
    requires s.pos == 0 && s.pend == [] && s.delimiter != [] && s.inString == 0 && !s.mlComment
    requires !s.needSpace && !s.ssComment && line == text + s.delimiter
    requires Complete(line) && 0 !in line && s.delimiter[0] < 128 && s.delimiter[0] != 92
    requires Plain(line, 0, |text|, s.delimiter)
    requires c.preserveComments || s.buffer != [] || (text != [] && !(text[0] == 32 || 9 <= text[0] <= 13))
    ensures
      var e := Statement(s.buffer + text);
      var r := w.reply(s.log + [e]);
      Lexed(w, c, line, s) ==
        if r.quit then Stopped(s.log + [e])
        else Done([], 0, false, if r.delimiter == [] || 0 in r.delimiter then s.delimiter else r.delimiter, s.log + [e])
  {
    var t := s.(pos := |text|, pend := text);
    assert line[0..|text|] == text && [] + text == text;
    PlainTextIsKept(w, c, line, s, |text|);
    SameEnds(w, c, line, s, t);
    assert line[|text|] == s.delimiter[0];
    LastDelimiter(w, c, line, t);
  }

  lemma SameEnds(w: World, c: Settings, line: seq<byte>, s: Lex, t: Lex)
    requires Same(w, c, line, s, t)
    ensures s.pos <= |line| && t.pos <= |line| && s.delimiter != [] && t.delimiter != [] && Complete(line)
    ensures Lexed(w, c, line, s) == Lexed(w, c, line, t)
  {
  }
}
