/** SQL LIKE over single-byte strings and its matcher (drizzled/ctype-bin.cc). */
module Like {
  import opened Basics

  /** How a byte reads through a plain `char` pointer, which is signed. */
  function Signed(b: byte): int { if b < 128 then b else b - 256 }

  /** The wildcards and the escape as the matcher gets them: plain C ints. */
  datatype Wild = Wild(escape: int, one: int, many: int)

  datatype Token = One | Many | Lit(c: byte)

  /** The meaning of a pattern, section 8.5 of ISO/IEC 9075-2. */
  ghost predicate Matches(tokens: seq<Token>, s: seq<byte>)
    decreases |tokens|
  {
    if tokens == [] then s == []
    else match tokens[0]
      case One => s != [] && Matches(tokens[1..], s[1..])
      case Lit(c) => s != [] && s[0] == c && Matches(tokens[1..], s[1..])
      case Many => exists k :: 0 <= k <= |s| && Matches(tokens[1..], s[k..])
  }

  /** Reading a pattern the way LIKE means it: an escape before another byte makes
      that byte literal, wherever it stands. */
  function Tokens(p: seq<byte>, w: Wild): (tokens: seq<Token>)
    ensures |tokens| <= |p|
    ensures p != [] ==> tokens != []
  {
    if p == [] then []
    else if Signed(p[0]) == w.one then [One] + Tokens(p[1..], w)
    else if Signed(p[0]) == w.many then [Many] + Tokens(p[1..], w)
    else if p[0] == w.escape && |p| > 1 then [Lit(p[1])] + Tokens(p[2..], w)
    else [Lit(p[0])] + Tokens(p[1..], w)
  }

  /** Reading a pattern the way the matcher does. After a `many` wildcard and any wildcards
      that follow it, the next literal is held in an `unsigned char` and compared with the
      escape in that form; every other byte is compared as a signed `char`. */
  function Scanned(p: seq<byte>, w: Wild, afterMany: bool): (tokens: seq<Token>)
    ensures |tokens| <= |p|
    ensures p != [] ==> tokens != []
  {
    if p == [] then []
    else if Signed(p[0]) == w.one then [One] + Scanned(p[1..], w, afterMany)
    else if Signed(p[0]) == w.many then [Many] + Scanned(p[1..], w, true)
    else if (if afterMany then p[0] else Signed(p[0])) == w.escape && |p| > 1
      then [Lit(p[1])] + Scanned(p[2..], w, false)
    else [Lit(p[0])] + Scanned(p[1..], w, false)
  }

  // -------------------------------------------------------------------------
  // What the matcher computes. `past` is the byte that follows the pattern in memory.

  predicate IsWild(b: byte, w: Wild) { Signed(b) == w.one || Signed(b) == w.many }

  /** The literal a pattern starts with, and what is left after it. */
  function Literal(p: seq<byte>, w: Wild, afterMany: bool): (r: (byte, seq<byte>))
    requires p != []
    ensures |r.1| < |p|
  {
    if (if afterMany then p[0] else Signed(p[0])) == w.escape && |p| > 1 then (p[1], p[2..])
    else (p[0], p[1..])
  }

  /** The verdict on `s` against `p`: 0 for a match, otherwise 1 or -1; `result` is the
      verdict when a run of single wildcards outlasts the string. */
  function WildCmp(s: seq<byte>, p: seq<byte>, w: Wild, past: byte, result: int): int
    decreases |p|, |s|
  {
    if p == [] then (if s == [] then 0 else 1)
    else if Signed(p[0]) == w.one then
      if s == [] then result else WildCmp(s[1..], p[1..], w, past, result)
    else if Signed(p[0]) == w.many then AfterMany(s, p[1..], w, past)
    else
      var (c, rest) := Literal(p, w, false);
      if s == [] || s[0] != c then 1 else WildCmp(s[1..], rest, w, past, 1)
  }

  function AfterMany(s: seq<byte>, p: seq<byte>, w: Wild, past: byte): int
    decreases |p|, |s|
  {
    if p == [] then 0
    else if Signed(p[0]) == w.many then AfterMany(s, p[1..], w, past)
    else if Signed(p[0]) == w.one then
      if s == [] then -1 else AfterMany(s[1..], p[1..], w, past)
    else if s == [] then -1
    else
      var (c, rest) := Literal(p, w, true);
      Search(s, c, rest, w, past)
  }

  function Search(s: seq<byte>, c: byte, p: seq<byte>, w: Wild, past: byte): int
    decreases |p|, |s|
  {
    if s == [] then -1
    else if s[0] != c then Search(s[1..], c, p, w, past)
    else
      var tmp := WildCmp(s[1..], p, w, past, -1);
      if tmp <= 0 then tmp
      else if |s| > 1 && Signed(if p == [] then past else p[0]) != w.many then Search(s[1..], c, p, w, past)
      else -1
  }

  lemma Step<T>(s: seq<T>, i: nat)
    requires i < |s|
    ensures s[i..] != [] && s[i..][0] == s[i] && s[i..][1..] == s[i + 1..]
    ensures |s[i..]| > 1 <==> i + 1 < |s|
  {
  }

  lemma StepLiteral(p: seq<byte>, j: nat, w: Wild, afterMany: bool)
    requires j < |p|
    ensures
      Literal(p[j..], w, afterMany)
      == if (if afterMany then p[j] else Signed(p[j])) == w.escape && j + 1 != |p|
         then (p[j + 1], p[j + 2..]) else (p[j], p[j + 1..])
  {
    Step(p, j);
    if j + 1 != |p| {
      assert p[j..][1] == p[j + 1];
      assert p[j..][2..] == p[j + 2..];
    }
  }

  /** One byte of a literal run. */
  lemma StepLiteralRun(s: seq<byte>, i: nat, p: seq<byte>, j: nat, w: Wild, past: byte, result: int)
    requires i <= |s| && j < |p| && !IsWild(p[j], w)
    ensures
      var k := if Signed(p[j]) == w.escape && j + 1 != |p| then j + 1 else j;
      WildCmp(s[i..], p[j..], w, past, result)
      == if i == |s| || p[k] != s[i] then 1 else WildCmp(s[i + 1..], p[k + 1..], w, past, 1)
  {
    Step(p, j);
    StepLiteral(p, j, w, false);
    if i < |s| {
      Step(s, i);
    }
  }

  lemma StepOne(s: seq<byte>, i: nat, p: seq<byte>, j: nat, w: Wild, past: byte, result: int)
    requires i <= |s| && j < |p| && Signed(p[j]) == w.one
    ensures WildCmp(s[i..], p[j..], w, past, result)
         == if i == |s| then result else WildCmp(s[i + 1..], p[j + 1..], w, past, result)
  {
    Step(p, j);
    if i < |s| {
      Step(s, i);
    }
  }

  /** Where the matcher stands after one of its inner loops. */
  datatype Progress = Done(r: int) | At(i: nat, j: nat, result: int)

  ghost predicate Continues(q: Progress, str: seq<byte>, pat: seq<byte>, w: Wild, past: byte, verdict: int) {
    match q
    case Done(r) => r == verdict
    case At(i, j, result) => i <= |str| && j <= |pat| && WildCmp(str[i..], pat[j..], w, past, result) == verdict
  }

  /** The matcher, on `str[i0..]` and `pat[j0..]`. */
  method MyWildcmpBin(str: seq<byte>, i0: nat, pat: seq<byte>, j0: nat, w: Wild, past: byte) returns (r: int)
    requires i0 <= |str| && j0 <= |pat|
    ensures r == WildCmp(str[i0..], pat[j0..], w, past, -1)
    decreases |pat| - j0, 1
  {
    ghost var verdict := WildCmp(str[i0..], pat[j0..], w, past, -1);
    var q := At(i0, j0, -1);
    while q.At? && q.j != |pat|
      invariant Continues(q, str, pat, w, past, verdict)
      invariant q.At? ==> j0 <= q.j
      decreases q.At?, if q.At? then |pat| - q.j else 0
    {
      if !IsWild(pat[q.j], w) {
        q := LiteralRun(str, q.i, pat, q.j, w, past, q.result);
      } else if Signed(pat[q.j]) == w.one {
        q := OneRun(str, q.i, pat, q.j, w, past, q.result);
      } else {
        Step(pat, q.j);
        r := MatchAfterMany(str, q.i, pat, q.j + 1, w, past);
        return;
      }
    }
    return if q.Done? then q.r else if q.i != |str| then 1 else 0;
  }

  /** Compare bytes up to the next wildcard. */
  method LiteralRun(str: seq<byte>, i0: nat, pat: seq<byte>, j0: nat, w: Wild, past: byte, result: int)
    returns (q: Progress)
    requires i0 <= |str| && j0 < |pat| && !IsWild(pat[j0], w)
    ensures Continues(q, str, pat, w, past, WildCmp(str[i0..], pat[j0..], w, past, result))
    ensures q.At? ==> j0 < q.j < |pat| && IsWild(pat[q.j], w)
  {
    ghost var verdict := WildCmp(str[i0..], pat[j0..], w, past, result);
    var i, j, res := i0, j0, result;
    while !IsWild(pat[j], w)
      invariant i <= |str| && j0 <= j < |pat| && (j == j0 ==> !IsWild(pat[j], w))
      invariant WildCmp(str[i..], pat[j..], w, past, res) == verdict
      decreases |pat| - j
    {
      StepLiteralRun(str, i, pat, j, w, past, res);
      if Signed(pat[j]) == w.escape && j + 1 != |pat| {
        j := j + 1;
      }
      if i == |str| || pat[j] != str[i] {
        return Done(1);
      }
      j, i := j + 1, i + 1;
      if j == |pat| {
        return Done(if i != |str| then 1 else 0);
      }
      res := 1;
    }
    return At(i, j, res);
  }

  /** Skip one byte for each single wildcard. */
  method OneRun(str: seq<byte>, i0: nat, pat: seq<byte>, j0: nat, w: Wild, past: byte, result: int)
    returns (q: Progress)
    requires i0 <= |str| && j0 < |pat| && Signed(pat[j0]) == w.one
    ensures Continues(q, str, pat, w, past, WildCmp(str[i0..], pat[j0..], w, past, result))
    ensures q.At? ==> j0 < q.j
  {
    ghost var verdict := WildCmp(str[i0..], pat[j0..], w, past, result);
    var i, j := i0, j0;
    while true
      invariant i <= |str| && j0 <= j < |pat| && Signed(pat[j]) == w.one
      invariant WildCmp(str[i..], pat[j..], w, past, result) == verdict
      decreases |pat| - j
    {
      StepOne(str, i, pat, j, w, past, result);
      if i == |str| {
        return Done(result);
      }
      i, j := i + 1, j + 1;
      if j == |pat| || Signed(pat[j]) != w.one {
        return At(i, j, result);
      }
    }
  }

  /** The matcher past a `many` wildcard: skip the wildcards that follow, then try every
      occurrence of the next literal. */
  method MatchAfterMany(str: seq<byte>, i0: nat, pat: seq<byte>, j0: nat, w: Wild, past: byte) returns (r: int)
    requires i0 <= |str| && j0 <= |pat|
    ensures r == AfterMany(str[i0..], pat[j0..], w, past)
    decreases |pat| - j0, 2
  {
    ghost var verdict := AfterMany(str[i0..], pat[j0..], w, past);
    var i, j := i0, j0;
    while j != |pat| && IsWild(pat[j], w)
      invariant i <= |str| && j0 <= j <= |pat|
      invariant AfterMany(str[i..], pat[j..], w, past) == verdict
      decreases |pat| - j
    {
      Step(pat, j);
      if Signed(pat[j]) != w.many {
        if i == |str| {
          return -1;
        }
        Step(str, i);
        i := i + 1;
      }
      j := j + 1;
    }
    if j == |pat| {
      return 0;
    }
    Step(pat, j);
    if i == |str| {
      return -1;
    }
    StepLiteral(pat, j, w, true);
    var cmp := pat[j];
    if cmp == w.escape && j + 1 != |pat| {
      j := j + 1;
      cmp := pat[j];
    }
    j := j + 1;
    while true
      invariant i < |str| && j0 < j <= |pat|
      invariant Search(str[i..], cmp, pat[j..], w, past) == verdict
      decreases |str| - i
    {
      while i != |str| && str[i] != cmp
        invariant i <= |str|
        invariant Search(str[i..], cmp, pat[j..], w, past) == verdict
      {
        Step(str, i);
        i := i + 1;
      }
      if i == |str| {
        return -1;
      }
      Step(str, i);
      i := i + 1;
      var tmp := MyWildcmpBin(str, i, pat, j, w, past);
      if tmp <= 0 {
        return tmp;
      }
      if i == |str| || Signed(if j == |pat| then past else pat[j]) == w.many {
        return -1;
      }
    }
  }
}
