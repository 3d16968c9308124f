/** Key ranges for LIKE patterns (drizzled/ctype-mb.cc), for character sets without Unicode
    weights, contractions or multi-byte characters. */
module LikeRange {
  import opened Basics
  import opened Like
  import LikeCorrect

  /** Escape and wildcards as the range builder gets them: single `char`s. */
  datatype RangeWild = RangeWild(escape: byte, one: byte, many: byte) {
    predicate IsWild(b: byte) { b == one || b == many }

    /** The same three bytes as the matcher gets them. */
    function AsInts(): Wild { Wild(escape, Signed(one), Signed(many)) }
  }

  /** How the range builder reads a pattern: the escape is looked for first. */
  function RangeTokens(p: seq<byte>, w: RangeWild): seq<Token> {
    if p == [] then []
    else if p[0] == w.escape && |p| > 1 then [Lit(p[1])] + RangeTokens(p[2..], w)
    else if p[0] == w.one then [One] + RangeTokens(p[1..], w)
    else if p[0] == w.many then [Many] + RangeTokens(p[1..], w)
    else [Lit(p[0])] + RangeTokens(p[1..], w)
  }

  /** The two key buffers and the lengths reported for them. */
  datatype Range = Range(min: seq<byte>, max: seq<byte>, minLength: nat, maxLength: nat)

  function Fill(b: byte, n: nat): (s: seq<byte>) { seq(n, _ => b) }

  /** The literal bytes before the first wildcard, at most `room` of them. */
  function Prefix(tokens: seq<Token>, room: nat): (s: seq<byte>)
    ensures |s| <= room && |s| <= |tokens|
  {
    if tokens == [] || room == 0 || !tokens[0].Lit? then []
    else [tokens[0].c] + Prefix(tokens[1..], room - 1)
  }

  /** A wildcard stands right after the prefix, where there was still room. */
  predicate ReachesWildcard(tokens: seq<Token>, room: nat) {
    var n := |Prefix(tokens, room)|;
    n < room && n < |tokens| && !tokens[n].Lit?
  }

  function RangeOf(tokens: seq<Token>, room: nat, resLength: nat, minSortChar: byte, binsort: bool): (r: Range)
    requires room <= resLength
    ensures |r.min| == |r.max| == resLength
  {
    var prefix := Prefix(tokens, room);
    var rest := resLength - |prefix|;
    if ReachesWildcard(tokens, room) then
      Range(prefix + Fill(minSortChar, rest), prefix + Fill(255, rest),
            if binsort then |prefix| else resLength, resLength)
    else
      Range(prefix + Fill(SPACE, rest), prefix + Fill(SPACE, rest), |prefix|, |prefix|)
  }

  method MyLikeRangeMb(ptr: seq<byte>, w: RangeWild, resLength: nat, mbmaxlen: nat,
                       minSortChar: byte, binsort: bool, minStr: array<byte>, maxStr: array<byte>)
    returns (minLength: nat, maxLength: nat)
    requires 1 <= mbmaxlen && minStr != maxStr
    requires minStr.Length == resLength && maxStr.Length == resLength
    modifies minStr, maxStr
    ensures Range(minStr[..], maxStr[..], minLength, maxLength)
         == RangeOf(RangeTokens(ptr, w), resLength / mbmaxlen, resLength, minSortChar, binsort)
  {
    RoomFits(resLength, mbmaxlen);
    var i, wild := CopyPrefix(ptr, w, resLength / mbmaxlen, minStr, maxStr);
    if wild {
      minLength, maxLength := if binsort then i else resLength, resLength;
      FillRest(minStr, i, minSortChar);
      FillRest(maxStr, i, 255);
    } else {
      minLength, maxLength := i, i;
      FillRest(minStr, i, SPACE);
      FillRest(maxStr, i, SPACE);
    }
  }

  lemma RoomFits(resLength: nat, mbmaxlen: nat)
    requires 1 <= mbmaxlen
    ensures resLength / mbmaxlen <= resLength
  {
    var q := resLength / mbmaxlen;
    QuotientFits(resLength, mbmaxlen, q, resLength % mbmaxlen);
  }

  lemma QuotientFits(n: nat, k: nat, q: int, r: int)
    requires 1 <= k && 0 <= r < k && n == k * q + r
    ensures q <= n
  {
    assert k * q == q + (k - 1) * q;
    assert q >= 1 ==> (k - 1) * q >= 0;
  }

  /** The scanning loop: copy literals until a wildcard, the pattern's end or the last of the room. */
  method CopyPrefix(ptr: seq<byte>, w: RangeWild, room: nat, minStr: array<byte>, maxStr: array<byte>)
    returns (i: nat, wild: bool)
    requires minStr != maxStr && room <= minStr.Length == maxStr.Length
    modifies minStr, maxStr
    ensures i <= minStr.Length
    ensures minStr[..i] == maxStr[..i] == Prefix(RangeTokens(ptr, w), room)
    ensures wild == ReachesWildcard(RangeTokens(ptr, w), room)
  {
    var j: nat, maxcharlen: nat := 0, room;
    ghost var tokens, taken: seq<byte> := RangeTokens(ptr, w), [];
    i, wild := 0, false;
    assert ptr[j..] == ptr;
    while j != |ptr| && i != minStr.Length && maxcharlen > 0
      invariant i <= minStr.Length && j <= |ptr| && i + maxcharlen == room
      invariant minStr[..i] == maxStr[..i] == taken
      invariant Completes(taken, RangeTokens(ptr[j..], w), maxcharlen, tokens, room)
      decreases |ptr| - j
    {
      ghost var j0 := j;
      if ptr[j] == w.escape && j + 1 != |ptr| {
        j := j + 1;
      } else if w.IsWild(ptr[j]) {
        StopAtWildcard(ptr, j, w, maxcharlen);
        wild := true;
        return;
      }
      TakeLiteral(ptr, j0, j, w, maxcharlen, taken, tokens, room);
      minStr[i], maxStr[i] := ptr[j], ptr[j];
      taken := taken + [ptr[j]];
      i, j, maxcharlen := i + 1, j + 1, maxcharlen - 1;
    }
  }

  /** What is still to scan completes what was taken so far. */
  ghost predicate Completes(taken: seq<byte>, rest: seq<Token>, left: nat, tokens: seq<Token>, room: nat) {
    && taken + Prefix(rest, left) == Prefix(tokens, room)
    && ReachesWildcard(rest, left) == ReachesWildcard(tokens, room)
  }

  lemma StopAtWildcard(p: seq<byte>, j: nat, w: RangeWild, room: nat)
    requires j < |p| && 0 < room && w.IsWild(p[j]) && !(p[j] == w.escape && j + 1 < |p|)
    ensures Prefix(RangeTokens(p[j..], w), room) == [] && ReachesWildcard(RangeTokens(p[j..], w), room)
  {
    Step(p, j);
  }

  method FillRest(a: array<byte>, i0: nat, b: byte)
    requires i0 <= a.Length
    modifies a
    ensures a[..] == old(a[..i0]) + Fill(b, a.Length - i0)
  {
    var i := i0;
    while i != a.Length
      invariant i0 <= i <= a.Length
      invariant a[..i] == old(a[..i0]) + Fill(b, i - i0)
    {
      a[i] := b;
      i := i + 1;
    }
  }

  /** The literal at `j0`, whose byte stands at `j`. */
  lemma TakeLiteral(p: seq<byte>, j0: nat, j: nat, w: RangeWild, left: nat,
                    taken: seq<byte>, tokens: seq<Token>, room: nat)
    requires j0 < |p| && 0 < left && Completes(taken, RangeTokens(p[j0..], w), left, tokens, room)
    requires if p[j0] == w.escape && j0 + 1 < |p| then j == j0 + 1 else j == j0 && !w.IsWild(p[j])
    ensures Completes(taken + [p[j]], RangeTokens(p[j + 1..], w), left - 1, tokens, room)
  {
    Step(p, j0);
    if j == j0 + 1 {
      assert p[j0..][1] == p[j] && p[j0..][2..] == p[j + 1..];
    }
    var before, after := RangeTokens(p[j0..], w), RangeTokens(p[j + 1..], w);
    assert before == [Lit(p[j])] + after && before[1..] == after;
    var n := |Prefix(after, left - 1)|;
    assert n < |after| ==> before[n + 1] == after[n];
    assert taken + ([p[j]] + Prefix(after, left - 1)) == (taken + [p[j]]) + Prefix(after, left - 1);
  }

  // -------------------------------------------------------------------------
  // Soundness.

  /** The stored key of a string: its first `room` characters, padded with spaces. */
  function Key(s: seq<byte>, room: nat, resLength: nat): (k: seq<byte>)
    requires room <= resLength
    ensures |k| == resLength
  {
    var n := if |s| < room then |s| else room;
    s[..n] + Fill(SPACE, resLength - n)
  }

  ghost predicate Between(lo: seq<byte>, k: seq<byte>, hi: seq<byte>) {
    |lo| == |k| == |hi| && forall i :: 0 <= i < |k| ==> lo[i] <= k[i] <= hi[i]
  }

  /** A matching string starts with the prefix, and is nothing more when no wildcard was reached
      and the room was not exhausted. */
  lemma {:induction false} MatchStartsWithPrefix(tokens: seq<Token>, s: seq<byte>, room: nat)
    requires Matches(tokens, s)
    ensures
      var prefix := Prefix(tokens, room);
      && |prefix| <= |s| && prefix == s[..|prefix|]
      && (!ReachesWildcard(tokens, room) && |prefix| < room ==> s == prefix)
    decreases |tokens|
  {
    if tokens != [] && room != 0 && tokens[0].Lit? {
      MatchStartsWithPrefix(tokens[1..], s[1..], room - 1);
      var prefix, tail := Prefix(tokens, room), Prefix(tokens[1..], room - 1);
      assert s == [s[0]] + s[1..];
      assert ReachesWildcard(tokens, room) == ReachesWildcard(tokens[1..], room - 1) by {
        assert |tail| < |tokens| - 1 ==> tokens[|tail| + 1] == tokens[1..][|tail|];
      }
    }
  }

  /** Every string that the pattern accepts has its key in the range. */
  lemma RangeIsSound(tokens: seq<Token>, s: seq<byte>, room: nat, resLength: nat, minSortChar: byte, binsort: bool)
    requires room <= resLength && Matches(tokens, s)
    requires minSortChar <= SPACE && forall b :: b in s ==> minSortChar <= b
    ensures
      var r := RangeOf(tokens, room, resLength, minSortChar, binsort);
      && Between(r.min, Key(s, room, resLength), r.max)
      && (!ReachesWildcard(tokens, room) ==> r.min == r.max == Key(s, room, resLength))
  {
    MatchStartsWithPrefix(tokens, s, room);
    var prefix, key := Prefix(tokens, room), Key(s, room, resLength);
    var r := RangeOf(tokens, room, resLength, minSortChar, binsort);
    forall i | 0 <= i < resLength
      ensures r.min[i] <= key[i] <= r.max[i]
      ensures !ReachesWildcard(tokens, room) ==> r.min[i] == key[i] == r.max[i]
    {
      if i < |prefix| {
        assert prefix[i] == s[i];
      } else if i < |s| && i < room {
        assert key[i] == s[i] && s[i] in s;
      }
    }
  }

  /** The tokens of plain bytes. */
  function Literals(bytes: seq<byte>): (tokens: seq<Token>)
    ensures |tokens| == |bytes|
  {
    seq(|bytes|, i requires 0 <= i < |bytes| => Lit(bytes[i]))
  }

  lemma {:induction false} PrefixOfLiterals(bytes: seq<byte>, rest: seq<Token>, room: nat)
    requires rest == [] || !rest[0].Lit?
    ensures Prefix(Literals(bytes) + rest, room) == if |bytes| < room then bytes else bytes[..room]
    decreases |bytes|
  {
    if bytes == [] {
      assert Literals(bytes) + rest == rest;
    } else if room > 0 {
      assert (Literals(bytes) + rest)[1..] == Literals(bytes[1..]) + rest;
      PrefixOfLiterals(bytes[1..], rest, room - 1);
      assert bytes == [bytes[0]] + bytes[1..];
      assert room <= |bytes| ==> bytes[..room] == [bytes[0]] + bytes[1..][..room - 1];
    }
  }

  /** For literals and a `many` wildcard the range is exact: where keys have room for all of a string, the keys in it
      are just the strings that the pattern accepts, as long as no byte is below the smallest sort byte. */
  lemma RangeIsExact(bytes: seq<byte>, k: seq<byte>, minSortChar: byte, binsort: bool)
    requires |bytes| < |k|
    ensures
      var r := RangeOf(Literals(bytes) + [Many], |k|, |k|, minSortChar, binsort);
      && (Between(r.min, k, r.max) <==>
            Matches(Literals(bytes) + [Many], k) && forall i :: |bytes| <= i < |k| ==> minSortChar <= k[i])
      && r.maxLength == |k| && r.minLength == if binsort then |bytes| else |k|
  {
    var tokens := Literals(bytes) + [Many];
    PrefixOfLiterals(bytes, [Many], |k|);
    assert tokens[|bytes|] == Many;
    MatchesPrefix(bytes, k);
    var r := RangeOf(tokens, |k|, |k|, minSortChar, binsort);
    if Between(r.min, k, r.max) {
      forall i | 0 <= i < |bytes| ensures k[i] == bytes[i] { assert r.min[i] == r.max[i] == bytes[i]; }
      assert k[..|bytes|] == bytes;
      forall i | |bytes| <= i < |k| ensures minSortChar <= k[i] { assert r.min[i] == minSortChar; }
    }
    if bytes <= k && forall i :: |bytes| <= i < |k| ==> minSortChar <= k[i] {
      forall i | 0 <= i < |k| ensures r.min[i] <= k[i] <= r.max[i] {}
    }
  }

  lemma {:induction false} MatchesPrefix(bytes: seq<byte>, s: seq<byte>)
    ensures Matches(Literals(bytes) + [Many], s) <==> bytes <= s
    decreases |bytes|
  {
    var tokens := Literals(bytes) + [Many];
    if bytes == [] {
      assert tokens == [Many] && [Many][1..] == [] && s[|s|..] == [];
    } else {
      assert tokens[1..] == Literals(bytes[1..]) + [Many];
      if s != [] {
        MatchesPrefix(bytes[1..], s[1..]);
        assert bytes == [bytes[0]] + bytes[1..] && s == [s[0]] + s[1..];
      }
    }
  }

  /** With any wildcard in reach: the literals before it, then the least and the greatest bytes there are. */
  lemma RangeSpelled(bytes: seq<byte>, rest: seq<Token>, room: nat, resLength: nat, minSortChar: byte, binsort: bool)
    requires |bytes| < room <= resLength && rest != [] && !rest[0].Lit?
    ensures
      var r := RangeOf(Literals(bytes) + rest, room, resLength, minSortChar, binsort);
      && |r.min| == |r.max| == r.maxLength == resLength && r.minLength == (if binsort then |bytes| else resLength)
      && r.min[..|bytes|] == r.max[..|bytes|] == bytes
      && forall i :: |bytes| <= i < resLength ==> r.min[i] == minSortChar && r.max[i] == 255
  {
    PrefixOfLiterals(bytes, rest, room);
    assert (Literals(bytes) + rest)[|bytes|] == rest[0];
  }

  /** Without a wildcard in reach both lengths are those of the literals that fit. */
  lemma LengthsWithoutWildcard(bytes: seq<byte>, room: nat, resLength: nat, minSortChar: byte, binsort: bool)
    requires room <= resLength
    ensures
      var r := RangeOf(Literals(bytes), room, resLength, minSortChar, binsort);
      var n := if |bytes| < room then |bytes| else room;
      r.minLength == r.maxLength == n && r.min[..n] == bytes[..n] && forall i :: n <= i < resLength ==> r.min[i] == 32
  {
    assert Literals(bytes) + [] == Literals(bytes);
    PrefixOfLiterals(bytes, [], room);
  }

  lemma {:induction false} ReadsAsTokens(p: seq<byte>, w: RangeWild)
    requires !w.IsWild(w.escape)
    ensures RangeTokens(p, w) == Tokens(p, w.AsInts())
    decreases |p|
  {
    if p != [] {
      ReadsAsTokens(p[1..], w);
      if |p| > 1 {
        ReadsAsTokens(p[2..], w);
      }
    }
  }

  /** The range builder reads every pattern as LIKE does if and only if the escape is no wildcard. */
  lemma ReadsAsTokensIff(w: RangeWild)
    ensures (forall p :: RangeTokens(p, w) == Tokens(p, w.AsInts())) <==> !w.IsWild(w.escape)
  {
    if w.IsWild(w.escape) {
      var p: seq<byte> := [w.escape, 0];
      assert RangeTokens(p, w)[0] == Lit(0);
      assert !Tokens(p, w.AsInts())[0].Lit?;
      assert RangeTokens(p, w) != Tokens(p, w.AsInts());
    } else {
      forall p: seq<byte> ensures RangeTokens(p, w) == Tokens(p, w.AsInts()) { ReadsAsTokens(p, w); }
    }
  }

  /** So the range never loses a row that the matcher would accept, provided that the escape
      is none of the wildcards and reads the same signed and unsigned. */
  lemma RangeKeepsAllMatches(p: seq<byte>, w: RangeWild, past: byte, s: seq<byte>,
                             room: nat, resLength: nat, minSortChar: byte, binsort: bool)
    requires room <= resLength && minSortChar <= SPACE && forall b :: b in s ==> minSortChar <= b
    requires !w.IsWild(w.escape) && w.escape < 128
    requires WildCmp(s, p, w.AsInts(), past, -1) == 0
    ensures
      var r := RangeOf(RangeTokens(p, w), room, resLength, minSortChar, binsort);
      Between(r.min, Key(s, room, resLength), r.max)
  {
    LikeCorrect.WildCmpMeans(s, p, w.AsInts(), past, -1);
    LikeCorrect.ScansAsTokens(p, w.AsInts(), false);
    ReadsAsTokens(p, w);
    RangeIsSound(RangeTokens(p, w), s, room, resLength, minSortChar, binsort);
  }

  /** The range of a pattern holds the key of a string. */
  ghost predicate InRange(p: seq<byte>, w: RangeWild, s: seq<byte>, room: nat, resLength: nat, minSortChar: byte,
                          binsort: bool)
    requires room <= resLength
  {
    var r := RangeOf(RangeTokens(p, w), room, resLength, minSortChar, binsort);
    Between(r.min, Key(s, room, resLength), r.max)
  }

  /** With any other escape the pattern of the escape and a literal `a` is read differently: the matcher
      accepts `x` and `a`, and the keys in the range start with `a`. */
  lemma EscapeLosesRows(w: RangeWild, past: byte, room: nat, resLength: nat, minSortChar: byte, binsort: bool)
    returns (p: seq<byte>, s: seq<byte>)
    requires 1 <= room <= resLength && minSortChar <= SPACE && (w.IsWild(w.escape) || 128 <= w.escape)
    ensures (forall b <- s :: minSortChar <= b) && WildCmp(s, p, w.AsInts(), past, -1) == 0
    ensures !InRange(p, w, s, room, resLength, minSortChar, binsort)
  {
    var a := PlainByte(w);
    var x: byte := if w.IsWild(w.escape) then 40 else w.escape;
    p, s := [w.escape, a], [x, a];
    assert p[1..] == [a] && [a][1..] == [] && s[1..] == [a] && p[2..] == [];
    var i := w.AsInts();
    assert !IsWild(a, i) && Literal([a], i, false) == (a, []) == Literal([a], i, true);
    assert WildCmp([], [], i, past, -1) == 0 == WildCmp([], [], i, past, 1);
    assert WildCmp([a], [a], i, past, -1) == 0 == WildCmp([a], [a], i, past, 1);
    assert Search([a], a, [], i, past) == 0 && Search(s, a, [], i, past) == 0;
    assert RangeTokens(p, w) == [Lit(a)] + [];
    assert [Lit(a)][1..] == [];
    assert Prefix(RangeTokens(p, w), room) == [a] + [];
    assert Key(s, room, resLength)[0] == x;
  }

  /** A byte of no significance, above the space. */
  function PlainByte(w: RangeWild): (a: byte)
    ensures SPACE < a < 40 && !w.IsWild(a) && a != w.escape
  {
    var free := (b: byte) => !w.IsWild(b) && b != w.escape;
    if free(33) then 33 else if free(34) then 34 else if free(35) then 35 else 36
  }

  /** The range keeps the rows of all patterns that the matcher accepts if and only if the escape is
      none of the wildcards and reads the same signed and unsigned, or the keys have no room at all. */
  lemma RangeKeepsAllMatchesIff(w: RangeWild, past: byte, room: nat, resLength: nat, minSortChar: byte, binsort: bool)
    requires room <= resLength && minSortChar <= SPACE
    ensures (forall p, s :: WildCmp(s, p, w.AsInts(), past, -1) == 0 && (forall b <- s :: minSortChar <= b) ==>
               InRange(p, w, s, room, resLength, minSortChar, binsort))
       <==> room == 0 || (!w.IsWild(w.escape) && w.escape < 128)
  {
    if !w.IsWild(w.escape) && w.escape < 128 {
      forall p: seq<byte>, s: seq<byte>
        | WildCmp(s, p, w.AsInts(), past, -1) == 0 && (forall b <- s :: minSortChar <= b)
        ensures InRange(p, w, s, room, resLength, minSortChar, binsort)
      {
        RangeKeepsAllMatches(p, w, past, s, room, resLength, minSortChar, binsort);
      }
    } else if room > 0 {
      var p, s := EscapeLosesRows(w, past, room, resLength, minSortChar, binsort);
    }
  }
}
