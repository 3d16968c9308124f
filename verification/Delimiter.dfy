/** Reading a test file with pushback, and searching it for a delimiter (client/drizzletest.cc). */
module Delimiter {
  import opened Basics

  /** A plain `char`. */
  type schar = c: int | -128 <= c < 128

  const MAX_DELIMITER_LENGTH: nat := 16
  const NEWLINE: schar := 10
  const EOF: int := -1

  /** Storing an int in a `char`. */
  function Char(c: int): schar { (c + 128) % 256 - 128 }

  function Chars(bytes: seq<byte>): (s: seq<schar>)
    ensures |s| == |bytes|
  {
    seq(|bytes|, i requires 0 <= i < |bytes| => Char(bytes[i]))
  }

  /** The pushed-back characters, next one first. */
  function Pushed(buf: seq<schar>): (s: seq<schar>)
    ensures |s| == |buf|
  {
    if buf == [] then [] else [buf[|buf| - 1]] + Pushed(buf[..|buf| - 1])
  }

  /** Every byte of the delimiter but the first is below 128. */
  predicate AsciiTail(delim: seq<schar>) { forall i :: 1 <= i < |delim| ==> 0 <= delim[i] }

  predicate OccursAt(delim: seq<schar>, s: seq<schar>, k: int) {
    0 <= k && k + |delim| <= |s| && s[k..k + |delim|] == delim
  }

  datatype Outcome = Found(text: seq<schar>) | Died

  // -------------------------------------------------------------------------
  // The search as a function of the input, for every delimiter.

  /** What is still to be read: its first `n` characters were pushed back, the others come from the file. */
  datatype Input = Input(rest: seq<schar>, n: nat, eof: bool)

  /** The `j`th int read from here on: a pushed-back character is signed, one from the file is not. */
  function Value(input: Input, j: nat): (v: int)
    ensures -128 <= v < 256 && Char(v) == (if j < |input.rest| then input.rest[j] else Char(EOF))
  {
    if j >= |input.rest| then EOF else if j < input.n then input.rest[j] else input.rest[j] as int % 256
  }

  function Take(input: Input, k: nat): Input {
    if k <= |input.rest| then Input(input.rest[k..], if k < input.n then input.n - k else 0, input.eof)
    else Input([], 0, true)
  }

  /** How much of the delimiter matches what is read, given that `i` characters of it do. */
  function Matched(delim: seq<schar>, input: Input, i: nat): (m: nat)
    requires 1 <= i <= |delim|
    ensures i <= m <= |delim|
    decreases |delim| - i
  {
    if i < |delim| && Value(input, i - 1) == delim[i] then Matched(delim, input, i + 1) else i
  }

  function Eofs(k: int): seq<schar> {
    if k <= 0 then [] else Eofs(k - 1) + [Char(EOF)]
  }

  /** `k` ints have been read and are pushed back, with every EOF among them as a character. */
  function PutBack(input: Input, k: nat): Input {
    Input(input.rest + Eofs(k - |input.rest|), if k < input.n then input.n else k, input.eof || k > |input.rest|)
  }

  function Match(c: int, delim: seq<schar>, input: Input): (r: (bool, Input))
    requires delim != []
  {
    if c != delim[0] then (false, input)
    else
      var m := Matched(delim, input, 1);
      if m == |delim| then (true, Take(input, m - 1)) else (false, PutBack(input, m))
  }

  /** All that is left to read matches, and does not complete the delimiter. */
  predicate EndsInside(c: int, delim: seq<schar>, input: Input)
    requires delim != []
  {
    && c == delim[0] && |input.rest| + 1 < |delim|
    && forall j :: 0 <= j < |input.rest| ==> Value(input, j) == delim[j + 1]
  }

  predicate UndoneUnlessEnd(c: int, delim: seq<schar>, before: Input, after: Input)
    requires delim != []
  {
    before.rest <= after.rest && (after.rest == before.rest <==> !EndsInside(c, delim, before))
  }

  /** The loop: what comes of it, and the input it leaves. */
  function Search(delim: seq<schar>, input: Input, ds: seq<schar>): (Outcome, Input)
    requires delim != []
    decreases if input.eof then 0 else |input.rest| + 1
  {
    if input.eof || input.rest == [] then (Died, Take(input, 1))
    else
      var c := input.rest[0];
      var (found, left) := Match(c, delim, Take(input, 1));
      if found then (Found(ds), left) else Search(delim, left, ds + [c])
  }

  class Reader {
    const file: seq<byte>
    const lineBuffer: array<schar>
    var pos: nat
    var eof: bool
    var n: nat
    var lineno: nat

    ghost predicate Valid()
      reads this
    {
      lineBuffer.Length == MAX_DELIMITER_LENGTH && n < MAX_DELIMITER_LENGTH && pos <= |file|
    }

    /** What is still to be read. */
    ghost function Rest(): seq<schar>
      reads this, lineBuffer
      requires n <= lineBuffer.Length && pos <= |file|
    {
      Pushed(lineBuffer[..n]) + Chars(file[pos..])
    }

    ghost function State(): Input
      reads this, lineBuffer
      requires n <= lineBuffer.Length && pos <= |file|
    {
      Input(Rest(), n, eof)
    }

    constructor (file: seq<byte>)
      ensures Valid() && fresh(lineBuffer) && this.file == file && lineno == 1
      ensures State() == Input(Chars(file), 0, false)
    {
      this.file := file;
      lineBuffer := new schar[MAX_DELIMITER_LENGTH](_ => 0);
      pos, eof, n, lineno := 0, false, 0, 1;
      new;
      assert file[0..] == file;
    }

    method MyGetc() returns (c: int)
      requires Valid()
      modifies this`pos, this`eof, this`n
      ensures Valid() && c == Value(old(State()), 0) && State() == Take(old(State()), 1)
    {
      if n == 0 {
        if pos == |file| {
          eof := true;
          return EOF;
        }
        c := file[pos];
        assert Chars(file[pos..])[1..] == Chars(file[pos + 1..]);
        pos := pos + 1;
        return;
      }
      assert lineBuffer[..n][..n - 1] == lineBuffer[..n - 1];
      n := n - 1;
      return lineBuffer[n];
    }

    method MyUngetc(c: int)
      requires n < lineBuffer.Length == MAX_DELIMITER_LENGTH && pos <= |file|
      modifies this`n, lineBuffer
      ensures n == old(n) + 1 && Rest() == [Char(c)] + old(Rest())
    {
      assert lineBuffer[..n] == old(lineBuffer[..n]);
      lineBuffer[n] := Char(c);
      n := n + 1;
      assert lineBuffer[..n][..n - 1] == old(lineBuffer[..n]);
    }

    /** Read on while the delimiter matches: `i` characters of it are matched, the first one by the
        caller and the others kept in `tmp`; if that is not all of it `d` did not match. */
    method ReadTail(delim: seq<schar>) returns (i: nat, d: int, tmp: seq<schar>)
      requires Valid() && 1 <= |delim|
      modifies this`pos, this`eof, this`n
      ensures Valid() && i == Matched(delim, old(State()), 1) && tmp == delim[1..i]
      ensures State() == Take(old(State()), if i < |delim| then i else i - 1)
      ensures i < |delim| ==> d == Value(old(State()), i - 1)
    {
      ghost var input := State();
      i, d, tmp := 1, 0, [];
      while i < |delim|
        invariant Valid() && 1 <= i <= |delim| && tmp == delim[1..i]
        invariant State() == Take(input, i - 1)
        invariant Matched(delim, input, i) == Matched(delim, input, 1)
      {
        TakeMore(input, i - 1);
        d := MyGetc();
        if d != delim[i] as int {
          return;
        }
        Longer(delim, i);
        tmp, i := tmp + [delim[i]], i + 1;
      }
    }

    method Unread(d: int, tmp: seq<schar>)
      requires Valid() && n + |tmp| + 1 < MAX_DELIMITER_LENGTH
      modifies this`n, lineBuffer
      ensures Valid() && n == old(n) + |tmp| + 1
      ensures Rest() == tmp + [Char(d)] + old(Rest())
    {
      MyUngetc(d);
      var i := |tmp|;
      while i > 0
        invariant 0 <= i <= |tmp| && pos <= |file| && n == old(n) + 1 + |tmp| - i
        invariant Rest() == tmp[i..] + [Char(d)] + old(Rest())
      {
        i := i - 1;
        MyUngetc(tmp[i]);
        assert tmp[i..] == [tmp[i]] + tmp[i + 1..];
      }
    }

    /** `c` has been read; on a failed match everything read after it is pushed back. A match that
        fails at the end of the file also pushes back the EOF, as a character. */
    method MatchDelimiter(c: int, delim: seq<schar>) returns (found: bool)
      requires Valid() && 1 <= |delim| <= MAX_DELIMITER_LENGTH && -128 <= c < 128
      modifies this`pos, this`eof, this`n, lineBuffer
      ensures Valid() && (found, State()) == Match(c, delim, old(State()))
      ensures !found ==> UndoneUnlessEnd(c, delim, old(State()), State())
    {
      ghost var input := State();
      if c != delim[0] as int {
        return false;
      }
      var i, d, tmp := ReadTail(delim);
      if i == |delim| {
        return true;
      }
      Undo(delim, input, i, d, tmp);
      UndoneIff(c, delim, input);
      return false;
    }

    /** Put back what was read after the first character, the mismatch included. */
    method Undo(delim: seq<schar>, ghost input: Input, i: nat, d: int, tmp: seq<schar>)
      requires Valid() && 1 <= i < |delim| <= MAX_DELIMITER_LENGTH && i == Matched(delim, input, 1)
      requires input.n <= |input.rest| && input.n < MAX_DELIMITER_LENGTH
      requires State() == Take(input, i) && d == Value(input, i - 1) && tmp == delim[1..i]
      modifies this`n, lineBuffer
      ensures Valid() && State() == PutBack(input, i)
    {
      ReadBack(delim, input, i, d);
      Unread(d, tmp);
    }

    /** The text up to the delimiter. The first turn of the source's loop is set apart: a command on
        the current line must be followed by a newline, which is not part of the text. */
    method ReadUntilDelimiter(startLineno: nat, delim: seq<schar>) returns (outcome: Outcome)
      requires Valid() && startLineno <= lineno && delim != []
      modifies this`pos, this`eof, this`n, this`lineno, lineBuffer
      ensures
        var sameLine, input := old(lineno) == startLineno, old(State());
        if |delim| > MAX_DELIMITER_LENGTH || (sameLine && !StartsNewline(input.rest)) then outcome.Died?
        else
          && Valid() && (outcome, State()) == Search(delim, if sameLine then Take(input, 1) else input, [])
          && (outcome.Found? ==>
                lineno == old(lineno) + (if sameLine then 1 else 0) + Newlines(outcome.text + delim[..1]))
    {
      if |delim| > MAX_DELIMITER_LENGTH {
        return Died;
      }
      if startLineno == lineno {
        var d := MyGetc();
        if Char(d) != NEWLINE {
          return Died;
        }
        lineno := lineno + 1;
      }
      outcome := ScanFor(delim);
    }

    /** The rest of the loop, past the line of the command. The lines of the text are counted, and one more if
        the delimiter begins with a newline. */
    method ScanFor(delim: seq<schar>) returns (outcome: Outcome)
      requires Valid() && 1 <= |delim| <= MAX_DELIMITER_LENGTH
      modifies this`pos, this`eof, this`n, this`lineno, lineBuffer
      ensures Valid() && (outcome, State()) == Search(delim, old(State()), [])
      ensures outcome.Found? ==> lineno == old(lineno) + Newlines(outcome.text + delim[..1])
    {
      var ds: seq<schar> := [];
      while true
        invariant Valid() && Search(delim, State(), ds) == Search(delim, old(State()), [])
        invariant lineno == old(lineno) + Newlines(ds)
        decreases if eof then 0 else |Rest()| + 1
      {
        var ended, found, c := ScanOne(delim, ds);
        OneMoreLine(ds, c);
        if ended {
          return Died;
        }
        if found {
          assert delim[..1] == [c];
          return Found(ds);
        }
        ds := ds + [c];
      }
    }

    /** One turn: read a character, count it if it ends a line, and look for the delimiter there. */
    method ScanOne(delim: seq<schar>, ghost ds: seq<schar>) returns (ended: bool, found: bool, c: schar)
      requires Valid() && 1 <= |delim| <= MAX_DELIMITER_LENGTH
      modifies this`pos, this`eof, this`n, this`lineno, lineBuffer
      ensures Valid() && lineno == old(lineno) + (if c == NEWLINE then 1 else 0) && (found && !ended ==> c == delim[0])
      ensures Search(delim, old(State()), ds)
           == if ended then (Died, State())
              else if found then (Found(ds), State()) else Search(delim, State(), ds + [c])
      ensures !ended && !found ==> !old(eof) && (eof || |Rest()| < |old(Rest())|)
    {
      var d := MyGetc();
      c := Char(d);
      if c == NEWLINE {
        lineno := lineno + 1;
      }
      ended, found := eof, false;
      if !eof {
        found := MatchDelimiter(c, delim);
      }
    }
  }

  function Newlines(s: seq<schar>): nat {
    if s == [] then 0 else Newlines(s[..|s| - 1]) + if s[|s| - 1] == NEWLINE then 1 else 0
  }

  lemma OneMoreLine(s: seq<schar>, c: schar)
    ensures Newlines(s + [c]) == Newlines(s) + if c == NEWLINE then 1 else 0
  {
    assert (s + [c])[..|s|] == s;
  }

  predicate StartsNewline(s: seq<schar>) { s != [] && s[0] == NEWLINE }

  lemma Longer(delim: seq<schar>, i: nat)
    requires 1 <= i < |delim|
    ensures delim[1..i] + [delim[i]] == delim[1..i + 1]
  {
  }

  lemma TakeMore(input: Input, k: nat)
    ensures Take(Take(input, k), 1) == Take(input, k + 1)
    ensures Value(Take(input, k), 0) == Value(input, k)
  {
  }

  lemma {:induction false} EofsGrow(k: nat)
    ensures |Eofs(k)| == k && forall j :: 0 <= j < k ==> Eofs(k)[j] == Char(EOF)
  {
    if k > 0 {
      EofsGrow(k - 1);
    }
  }

  lemma {:induction false} MatchedReads(delim: seq<schar>, input: Input, i: nat, k: nat)
    requires 1 <= i <= k < |delim| && k < Matched(delim, input, i)
    ensures Value(input, k - 1) == delim[k]
    decreases k - i
  {
    if i < k {
      MatchedReads(delim, input, i + 1, k);
    }
  }

  lemma {:induction false} MatchedToTheEnd(delim: seq<schar>, input: Input, i: nat)
    requires 1 <= i <= |input.rest| + 1 <= |delim|
    ensures Matched(delim, input, i) > |input.rest|
       <==> forall j :: i - 1 <= j < |input.rest| ==> Value(input, j) == delim[j + 1]
    decreases |delim| - i
  {
    if i <= |input.rest| && Value(input, i - 1) == delim[i] {
      MatchedToTheEnd(delim, input, i + 1);
    }
  }

  /** A failed match leaves the input as it was if and only if the input does not end inside the
      delimiter. */
  lemma UndoneIff(c: int, delim: seq<schar>, input: Input)
    requires delim != []
    ensures !Match(c, delim, input).0 ==> UndoneUnlessEnd(c, delim, input, Match(c, delim, input).1)
  {
    if !Match(c, delim, input).0 && c == delim[0] {
      var m := Matched(delim, input, 1);
      if |input.rest| < |delim| {
        MatchedToTheEnd(delim, input, 1);
      }
      if m > |input.rest| {
        EofsGrow(m - |input.rest|);
      }
    }
  }

  /** At the end of a file the first of two characters leaves a character behind that was never there. */
  lemma EndIsPutBack(c: schar, d: schar)
    requires d != EOF
    ensures Match(c, [c, d], Input([], 0, false)) == (false, Input([Char(EOF)], 1, true))
    ensures EndsInside(c, [c, d], Input([], 0, false))
  {
    var delim, input := [c, d], Input([], 0, false);
    assert Matched(delim, input, 1) == 1;
    assert input.rest + Eofs(1) == [Char(EOF)] by { assert Eofs(1) == Eofs(0) + [Char(EOF)]; }
  }

  /** What was read before a mismatch, put back in front of what is left, is what was there, and for
      each EOF that was read a character. */
  lemma ReadBack(delim: seq<schar>, input: Input, i: nat, d: int)
    requires delim != [] && i == Matched(delim, input, 1) < |delim| && d == Value(input, i - 1)
    ensures delim[1..i] + [Char(d)] + Take(input, i).rest == PutBack(input, i).rest
  {
    if i > |input.rest| {
      EofsGrow(i - |input.rest|);
    }
    var tmp := delim[1..i] + [Char(d)];
    forall j | 0 <= j < i
      ensures tmp[j] == Char(Value(input, j)) == PutBack(input, i).rest[j]
    {
      if j < i - 1 {
        MatchedReads(delim, input, 1, j + 1);
      }
    }
  }

  // -------------------------------------------------------------------------
  // What the search means.

  /** The outcome of looking for the delimiter in the text. */
  ghost predicate Searched(delim: seq<schar>, text: seq<schar>, outcome: Outcome) {
    match outcome
    case Found(t) => Leftmost(delim, text, |t|) && t == text[..|t|]
    case Died => forall k :: !OccursAt(delim, text, k)
  }

  ghost predicate Leftmost(delim: seq<schar>, s: seq<schar>, k: int) {
    OccursAt(delim, s, k) && forall j :: 0 <= j < k ==> !OccursAt(delim, s, j)
  }

  lemma OccursHead(delim: seq<schar>, body: seq<schar>, k: nat, c: schar, after: seq<schar>)
    requires delim != [] && k <= |body| && body[k..] == [c] + after
    ensures OccursAt(delim, body, k) <==> c == delim[0] && delim[1..] <= after
    ensures OccursAt(delim, body, k) ==> body[k + |delim|..] == after[|delim| - 1..]
  {
    if OccursAt(delim, body, k) {
      assert delim == ([c] + after)[..|delim|];
      assert body[k + |delim|..] == body[k..][|delim|..];
    }
    if c == delim[0] && delim[1..] <= after {
      assert body[k..k + |delim|] == body[k..][..|delim|];
      assert [c] + delim[1..] == delim;
    }
  }

  /** An ASCII character is read as itself, whether pushed back or not, and is no EOF. */
  lemma {:induction false} AsciiMatched(delim: seq<schar>, input: Input, i: nat)
    requires AsciiTail(delim) && 1 <= i <= |delim|
    requires i - 1 <= |input.rest| && input.rest[..i - 1] == delim[1..i]
    ensures
      var m := Matched(delim, input, i);
      && (m == |delim| <==> delim[1..] <= input.rest)
      && (m < |delim| && m > |input.rest| ==> input.rest < delim[1..])
    decreases |delim| - i
  {
    if i < |delim| {
      assert delim[1..][i - 1] == delim[i] && delim[1..i + 1] == delim[1..i] + [delim[i]];
      if Value(input, i - 1) == delim[i] {
        assert input.rest[..i] == input.rest[..i - 1] + [delim[i]];
        AsciiMatched(delim, input, i + 1);
      } else if i > |input.rest| {
        assert input.rest == delim[1..i] == delim[1..][..i - 1];
      }
    }
  }

  /** `ds` has been taken off the body and holds no start of the delimiter; once the end of the
      file was seen there is none in all of the body. */
  ghost predicate Scanned(delim: seq<schar>, input: Input, ds: seq<schar>, body: seq<schar>) {
    if input.eof then forall k :: !OccursAt(delim, body, k)
    else body == ds + input.rest && forall j :: 0 <= j < |ds| ==> !OccursAt(delim, body, j)
  }

  /** One turn: the delimiter starts here, or it does not, and if the file ended while looking it
      does not start further on either. */
  lemma SearchTurn(delim: seq<schar>, input: Input, ds: seq<schar>, body: seq<schar>)
    requires delim != [] && AsciiTail(delim) && !input.eof && input.rest != [] && Scanned(delim, input, ds, body)
    ensures
      var (found, left) := Match(input.rest[0], delim, Take(input, 1));
      if found then Leftmost(delim, body, |ds|) && ds == body[..|ds|] && left.rest == body[|ds| + |delim|..]
      else Scanned(delim, left, ds + [input.rest[0]], body)
  {
    var c, after := input.rest[0], Take(input, 1);
    assert body[|ds|..] == [c] + after.rest;
    OccursHead(delim, body, |ds|, c, after.rest);
    AsciiMatched(delim, after, 1);
    var (found, left) := Match(c, delim, after);
    assert body == (ds + [c]) + after.rest;
    if !found && !left.eof {
      assert left.rest == after.rest;
    }
  }

  /** With a delimiter that is ASCII past its first character the search finds the leftmost
      occurrence in what is to be read, and leaves what follows it; or dies when there is none. */
  lemma {:induction false} SearchMeans(delim: seq<schar>, input: Input, ds: seq<schar>, body: seq<schar>)
    requires delim != [] && AsciiTail(delim) && Scanned(delim, input, ds, body)
    ensures
      var (outcome, left) := Search(delim, input, ds);
      Searched(delim, body, outcome) && (outcome.Found? ==> left.rest == body[|outcome.text| + |delim|..])
    decreases if input.eof then 0 else |input.rest| + 1
  {
    if !input.eof && input.rest != [] {
      SearchTurn(delim, input, ds, body);
      var (found, left) := Match(input.rest[0], delim, Take(input, 1));
      if !found {
        SearchMeans(delim, left, ds + [input.rest[0]], body);
      }
    }
  }

  /** With a character from 128 to 254 at `k`, which is not among the pushed-back ones when its turn
      comes, the search never finds anything. */
  lemma {:induction false} HighTailNeverFound(delim: seq<schar>, input: Input, ds: seq<schar>, k: nat)
    requires 1 <= k < |delim| && delim[k] < EOF && input.n <= k
    ensures Search(delim, input, ds).0 == Died
    decreases if input.eof then 0 else |input.rest| + 1
  {
    if !input.eof && input.rest != [] {
      var after := Take(input, 1);
      MatchedBefore(delim, after, 1, k);
      HighTailNeverFound(delim, Match(input.rest[0], delim, after).1, ds + [input.rest[0]], k);
    }
  }

  lemma {:induction false} MatchedBefore(delim: seq<schar>, input: Input, i: nat, k: nat)
    requires 1 <= i <= k < |delim| && Value(input, k - 1) != delim[k]
    ensures Matched(delim, input, i) <= k
    decreases k - i
  {
    if i < k && Value(input, i - 1) == delim[i] {
      MatchedBefore(delim, input, i + 1, k);
    }
  }

  /** What is found later than where the search stands has more text before it. */
  lemma {:induction false} FoundAfter(delim: seq<schar>, input: Input, ds: seq<schar>)
    requires delim != []
    ensures
      var outcome := Search(delim, input, ds).0;
      outcome.Found? ==> |ds| <= |outcome.text|
    decreases if input.eof then 0 else |input.rest| + 1
  {
    if !input.eof && input.rest != [] {
      var (found, left) := Match(input.rest[0], delim, Take(input, 1));
      if !found {
        FoundAfter(delim, left, ds + [input.rest[0]]);
      }
    }
  }

  /** A file that holds just such a delimiter is not found to start with it. */
  lemma HighTailMissed(delim: seq<schar>, k: nat)
    requires 1 <= k < |delim| && delim[k] < 0
    ensures !Searched(delim, delim, Search(delim, Input(delim, 0, false), []).0)
    ensures delim[k] < EOF ==> Search(delim, Input(delim, 0, false), []).0 == Died
  {
    var input := Input(delim, 0, false);
    var after := Take(input, 1);
    MatchedBefore(delim, after, 1, k);
    FoundAfter(delim, Match(delim[0], delim, after).1, [] + [delim[0]]);
    assert OccursAt(delim, delim, 0);
    if delim[k] < EOF {
      HighTailNeverFound(delim, input, [], k);
    }
  }

  /** Every file is searched rightly if and only if the delimiter is ASCII past its first character. */
  lemma SearchesIff(delim: seq<schar>)
    requires delim != []
    ensures (forall file: seq<byte> :: Searched(delim, Chars(file), Search(delim, Input(Chars(file), 0, false), []).0))
       <==> AsciiTail(delim)
  {
    if AsciiTail(delim) {
      forall file: seq<byte>
        ensures Searched(delim, Chars(file), Search(delim, Input(Chars(file), 0, false), []).0)
      {
        SearchMeans(delim, Input(Chars(file), 0, false), [], Chars(file));
      }
    } else {
      var k :| 1 <= k < |delim| && delim[k] < 0;
      HighTailMissed(delim, k);
      var file := AnyFile(delim);
    }
  }

  /** The character 255 is matched by the end of the file: the first character of a two-character
      delimiter at the end of a file passes for all of it. */
  lemma EndPassesForHighest(c: schar)
    ensures
      var delim, input := [c, Char(EOF)], Input([c], 0, false);
      Search(delim, input, []).0 == Found([]) && forall k :: !OccursAt(delim, [c], k)
  {
    var delim, after := [c, Char(EOF)], Take(Input([c], 0, false), 1);
    assert Matched(delim, after, 1) == Matched(delim, after, 2) == 2;
  }

  /** The bytes of a file are any characters whatever. */
  lemma {:induction false} AnyFile(s: seq<schar>) returns (file: seq<byte>)
    ensures Chars(file) == s
  {
    file := seq(|s|, i requires 0 <= i < |s| => s[i] as int % 256);
  }
}
