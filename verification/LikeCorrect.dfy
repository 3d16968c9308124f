/** The matcher against the meaning of LIKE. */
module LikeCorrect {
  import opened Basics
  import opened Like

  ghost predicate SomeSuffix(t: seq<Token>, s: seq<byte>) {
    exists k :: 0 <= k <= |s| && Matches(t, s[k..])
  }

  lemma SuffixStep(t: seq<Token>, s: seq<byte>)
    ensures SomeSuffix(t, s) <==> Matches(t, s) || (s != [] && SomeSuffix(t, s[1..]))
  {
    if SomeSuffix(t, s) {
      var k :| 0 <= k <= |s| && Matches(t, s[k..]);
      if k == 0 {
        assert s[k..] == s;
      } else {
        assert s[1..][k - 1..] == s[k..];
      }
    }
    if Matches(t, s) {
      assert s[0..] == s;
    } else if s != [] && SomeSuffix(t, s[1..]) {
      var k :| 0 <= k <= |s[1..]| && Matches(t, s[1..][k..]);
      assert s[k + 1..] == s[1..][k..];
    }
  }

  /** Peeling the first token off both sides of "some suffix matches". */
  lemma SuffixTail(x: Token, t: seq<Token>, s: seq<byte>)
    requires SomeSuffix([x] + t, s)
    ensures x.Many? ==> SomeSuffix(t, s)
    ensures !x.Many? ==> s != [] && SomeSuffix(t, s[1..])
  {
    assert ([x] + t)[1..] == t;
    var k :| 0 <= k <= |s| && Matches([x] + t, s[k..]);
    if x.Many? {
      var j :| 0 <= j <= |s[k..]| && Matches(t, s[k..][j..]);
      assert s[k + j..] == s[k..][j..];
    } else {
      assert s[k..][1..] == s[1..][k..];
    }
  }

  lemma SuffixOne(t: seq<Token>, s: seq<byte>)
    requires s != [] && SomeSuffix(t, s[1..])
    ensures SomeSuffix([One] + t, s)
  {
    assert ([One] + t)[1..] == t;
    var k :| 0 <= k <= |s[1..]| && Matches(t, s[1..][k..]);
    assert s[k..][1..] == s[1..][k..];
  }

  lemma SuffixMany(t: seq<Token>, s: seq<byte>)
    ensures Matches([Many] + t, s) <==> SomeSuffix(t, s)
    ensures SomeSuffix([Many] + t, s) <==> SomeSuffix(t, s)
  {
    assert ([Many] + t)[1..] == t;
    if SomeSuffix([Many] + t, s) {
      SuffixTail(Many, t, s);
    }
    SuffixStep([Many] + t, s);
  }

  /** The tokens end in a `many` wildcard, single wildcards and one literal. */
  predicate EndsInLoneLiteral(t: seq<Token>, afterMany: bool) {
    if t == [] then false
    else match t[0]
      case One => EndsInLoneLiteral(t[1..], afterMany)
      case Many => EndsInLoneLiteral(t[1..], true)
      case Lit(_) => if |t| == 1 then afterMany else EndsInLoneLiteral(t[1..], false)
  }

  /** The byte read past the pattern's end cannot stop the search too early. */
  predicate Safe(p: seq<byte>, w: Wild, past: byte, afterMany: bool) {
    Signed(past) == w.many ==> !EndsInLoneLiteral(Scanned(p, w, afterMany), afterMany)
  }

  lemma ScanLiteral(p: seq<byte>, w: Wild, afterMany: bool)
    requires p != [] && !IsWild(p[0], w)
    ensures
      var (c, rest) := Literal(p, w, afterMany);
      Scanned(p, w, afterMany) == [Lit(c)] + Scanned(rest, w, false)
  {
  }

  /** The verdict 0 means a match; when `Safe`, a match gives 0, and -1 means that no suffix
      of the string matches either. */
  lemma {:induction false} WildCmpMeans(s: seq<byte>, p: seq<byte>, w: Wild, past: byte, result: int)
    requires result == 1 || result == -1
    ensures
      var r, t := WildCmp(s, p, w, past, result), Scanned(p, w, false);
      && -1 <= r <= 1
      && (r == 0 ==> Matches(t, s))
      && (Safe(p, w, past, false) ==> (Matches(t, s) ==> r == 0) && (r == -1 ==> !SomeSuffix(t, s)))
      && (p != [] && Signed(p[0]) != w.one && Signed(p[0]) == w.many ==> r != 1)
    decreases |p|, |s|
  {
    var t := Scanned(p, w, false);
    if p == [] {
    } else if Signed(p[0]) == w.one {
      var tail := Scanned(p[1..], w, false);
      assert t == [One] + tail && t[1..] == tail;
      if s == [] {
        SuffixStep(t, s);
      } else {
        WildCmpMeans(s[1..], p[1..], w, past, result);
        if SomeSuffix(t, s) { SuffixTail(One, tail, s); }
      }
    } else if Signed(p[0]) == w.many {
      var tail := Scanned(p[1..], w, true);
      assert t == [Many] + tail && t[1..] == tail;
      AfterManyMeans(s, p[1..], w, past);
      SuffixMany(tail, s);
    } else {
      ScanLiteral(p, w, false);
      var (c, rest) := Literal(p, w, false);
      var tail := Scanned(rest, w, false);
      assert t[1..] == tail;
      if s != [] && s[0] == c {
        WildCmpMeans(s[1..], rest, w, past, 1);
        if SomeSuffix(t, s) { SuffixTail(Lit(c), tail, s); }
      }
    }
  }

  lemma {:induction false} AfterManyMeans(s: seq<byte>, p: seq<byte>, w: Wild, past: byte)
    requires w.one != w.many
    ensures
      var r, t := AfterMany(s, p, w, past), Scanned(p, w, true);
      && -1 <= r <= 0
      && (r == 0 ==> SomeSuffix(t, s))
      && (Safe(p, w, past, true) ==> SomeSuffix(t, s) ==> r == 0)
    decreases |p|, |s|
  {
    var t := Scanned(p, w, true);
    if p == [] {
      assert s[|s|..] == [];
      assert Matches(t, s[|s|..]);
    } else if Signed(p[0]) == w.many {
      var tail := Scanned(p[1..], w, true);
      assert t == [Many] + tail && t[1..] == tail;
      AfterManyMeans(s, p[1..], w, past);
      SuffixMany(tail, s);
    } else if Signed(p[0]) == w.one {
      var tail := Scanned(p[1..], w, true);
      assert t == [One] + tail && t[1..] == tail;
      if SomeSuffix(t, s) { SuffixTail(One, tail, s); }
      if s != [] {
        AfterManyMeans(s[1..], p[1..], w, past);
        if SomeSuffix(tail, s[1..]) { SuffixOne(tail, s); }
      }
    } else {
      ScanLiteral(p, w, true);
      var (c, rest) := Literal(p, w, true);
      assert t[1..] == Scanned(rest, w, false);
      if s == [] {
        if SomeSuffix(t, s) { SuffixTail(Lit(c), t[1..], s); }
      } else {
        SearchMeans(s, c, rest, w, past);
      }
    }
  }

  lemma {:induction false} SearchMeans(s: seq<byte>, c: byte, p: seq<byte>, w: Wild, past: byte)
    requires w.one != w.many
    ensures
      var r, t := Search(s, c, p, w, past), Scanned(p, w, false);
      && -1 <= r <= 0
      && (r == 0 ==> SomeSuffix([Lit(c)] + t, s))
      && ((Signed(past) == w.many ==> p != [] && !EndsInLoneLiteral(t, false))
          ==> SomeSuffix([Lit(c)] + t, s) ==> r == 0)
    decreases |p|, |s|
  {
    var tail := Scanned(p, w, false);
    var t := [Lit(c)] + tail;
    assert t[1..] == tail;
    SuffixStep(t, s);
    if SomeSuffix(t, s) { SuffixTail(Lit(c), tail, s); }
    if s != [] {
      SearchMeans(s[1..], c, p, w, past);
      if s[0] == c {
        WildCmpMeans(s[1..], p, w, past, -1);
        if SomeSuffix(t, s[1..]) {
          SuffixTail(Lit(c), tail, s[1..]);
          SuffixStep(tail, s[1..]);
        }
      }
    }
  }

  // -------------------------------------------------------------------------
  // Exactly when the matcher computes LIKE.

  /** A pattern that is not `Safe` has a matching string that the matcher gives up on. */
  lemma {:induction false} LoneLiteralLost(p: seq<byte>, w: Wild, past: byte) returns (s: seq<byte>)
    requires Signed(past) == w.many && EndsInLoneLiteral(Scanned(p, w, false), false)
    ensures Matches(Scanned(p, w, false), s)
    ensures WildCmp(s, p, w, past, -1) == WildCmp(s, p, w, past, 1) == -1
    decreases |p|
  {
    var t := Scanned(p, w, false);
    if Signed(p[0]) == w.one {
      assert t[1..] == Scanned(p[1..], w, false);
      var s' := LoneLiteralLost(p[1..], w, past);
      s := [0] + s';
      assert s[1..] == s';
    } else if Signed(p[0]) == w.many {
      assert t == [Many] + Scanned(p[1..], w, true) && t[1..] == Scanned(p[1..], w, true);
      s := LoneLiteralLostAfterMany(p[1..], w, past);
      SuffixMany(t[1..], s);
    } else {
      ScanLiteral(p, w, false);
      var (c, rest) := Literal(p, w, false);
      assert t[1..] == Scanned(rest, w, false);
      var s' := LoneLiteralLost(rest, w, past);
      s := [c] + s';
      assert s[1..] == s';
    }
  }

  lemma {:induction false} LoneLiteralLostAfterMany(p: seq<byte>, w: Wild, past: byte) returns (s: seq<byte>)
    requires Signed(past) == w.many != w.one && EndsInLoneLiteral(Scanned(p, w, true), true)
    ensures SomeSuffix(Scanned(p, w, true), s)
    ensures AfterMany(s, p, w, past) == -1
    decreases |p|
  {
    var t := Scanned(p, w, true);
    if Signed(p[0]) == w.many {
      assert t == [Many] + Scanned(p[1..], w, true) && t[1..] == Scanned(p[1..], w, true);
      s := LoneLiteralLostAfterMany(p[1..], w, past);
      SuffixMany(t[1..], s);
    } else if Signed(p[0]) == w.one {
      assert t == [One] + Scanned(p[1..], w, true) && t[1..] == Scanned(p[1..], w, true);
      var s' := LoneLiteralLostAfterMany(p[1..], w, past);
      s := [0] + s';
      assert s[1..] == s';
      SuffixOne(t[1..], s);
    } else {
      ScanLiteral(p, w, true);
      var (c, rest) := Literal(p, w, true);
      assert t[1..] == Scanned(rest, w, false);
      if rest == [] {
        s := [c, c];
        assert s[1..] == [c] && Matches(t, s[1..]);
        assert WildCmp(s[1..], rest, w, past, -1) == 1;
      } else {
        var s' := LoneLiteralLost(rest, w, past);
        s := [c] + s';
        assert s[1..] == s' && s[0..] == s && Matches(t, s[0..]);
      }
      assert Search(s, c, rest, w, past) == -1;
    }
  }

  /** For one pattern: the matcher decides it on all strings if and only if the byte past the
      pattern is not `many`, or the pattern does not end in `many`, single wildcards and one literal. */
  lemma DecidesPatternIff(p: seq<byte>, w: Wild, past: byte)
    ensures (forall s :: WildCmp(s, p, w, past, -1) == 0 <==> Matches(Scanned(p, w, false), s))
       <==> Safe(p, w, past, false)
  {
    if Safe(p, w, past, false) {
      forall s: seq<byte>
        ensures WildCmp(s, p, w, past, -1) == 0 <==> Matches(Scanned(p, w, false), s)
      {
        WildCmpMeans(s, p, w, past, -1);
      }
    } else {
      var s := LoneLiteralLost(p, w, past);
      assert WildCmp(s, p, w, past, -1) != 0;
    }
  }

  /** Giving up on -1 loses no match: no suffix of the string matches, so trying to match
      further to the right is pointless. */
  lemma GivingUpIsSound(s: seq<byte>, k: nat, p: seq<byte>, w: Wild, past: byte)
    requires k <= |s| && Safe(p, w, past, false)
    requires WildCmp(s, p, w, past, -1) == -1
    ensures WildCmp(s[k..], p, w, past, -1) != 0
  {
    WildCmpMeans(s, p, w, past, -1);
    WildCmpMeans(s[k..], p, w, past, -1);
  }

  /** The escape is a byte above 127, where a signed and an unsigned `char` read differently. */
  predicate HighEscape(w: Wild) {
    var b := if w.escape < 0 then w.escape + 256 else w.escape;
    128 <= b < 256 && !IsWild(b, w)
  }

  lemma {:induction false} ScansAsTokens(p: seq<byte>, w: Wild, afterMany: bool)
    requires !HighEscape(w)
    ensures Scanned(p, w, afterMany) == Tokens(p, w)
    decreases |p|
  {
    if p != [] {
      ScansAsTokens(p[1..], w, afterMany);
      ScansAsTokens(p[1..], w, true);
      ScansAsTokens(p[1..], w, false);
      if |p| > 1 {
        ScansAsTokens(p[2..], w, false);
      }
    }
  }

  lemma {:induction false} LengthWithoutMany(t: seq<Token>, s: seq<byte>)
    requires Many !in t
    ensures Matches(t, s) ==> |s| == |t|
    decreases |t|
  {
    if t != [] && s != [] {
      LengthWithoutMany(t[1..], s[1..]);
    }
  }

  /** A doubled high escape stands for one such byte in LIKE and for two in the matcher,
      or the other way round. */
  lemma HighEscapeMisread(w: Wild, past: byte) returns (p: seq<byte>, s: seq<byte>)
    requires HighEscape(w)
    ensures WildCmp(s, p, w, past, -1) == 0 <==> !Matches(Tokens(p, w), s)
  {
    var b: byte := if w.escape < 0 then w.escape + 256 else w.escape;
    p, s := [b, b], [b];
    assert p[1..] == [b] && p[2..] == [] && s[1..] == [];
    var one, two := [Lit(b)], [Lit(b), Lit(b)];
    assert one[1..] == [] && two[1..] == one;
    assert Matches(one, s);
    LengthWithoutMany(two, s);
    WildCmpMeans(s, p, w, past, -1);
  }

  /** The matcher computes LIKE, on all strings and patterns, if and only if the escape reads
      the same signed and unsigned and the byte past the pattern is not `many`. */
  lemma ComputesLikeIff(w: Wild, past: byte)
    ensures (forall s, p :: WildCmp(s, p, w, past, -1) == 0 <==> Matches(Tokens(p, w), s))
       <==> !HighEscape(w) && (Signed(past) == w.many ==> w.one == w.many)
  {
    if HighEscape(w) {
      var p, s := HighEscapeMisread(w, past);
    } else if Signed(past) == w.many && w.one != w.many {
      var c: byte := if !IsWild(0, w) then 0 else if !IsWild(1, w) then 1 else 2;
      var p := [past, c];
      assert p[1..] == [c] && [c][1..] == [];
      assert Scanned([c], w, true) == [Lit(c)];
      assert Scanned(p, w, false) == [Many] + [Lit(c)];
      assert [Many, Lit(c)][1..] == [Lit(c)];
      var s := LoneLiteralLost(p, w, past);
      ScansAsTokens(p, w, false);
      assert WildCmp(s, p, w, past, -1) != 0 && Matches(Tokens(p, w), s);
    } else {
      forall s: seq<byte>, p: seq<byte>
        ensures WildCmp(s, p, w, past, -1) == 0 <==> Matches(Tokens(p, w), s)
      {
        if w.one == w.many { NeverLone(p, w); }
        WildCmpMeans(s, p, w, past, -1);
        ScansAsTokens(p, w, false);
      }
    }
  }

  lemma {:induction false} NeverLone(p: seq<byte>, w: Wild)
    requires w.one == w.many
    ensures !EndsInLoneLiteral(Scanned(p, w, false), false)
    decreases |p|
  {
    var t := Scanned(p, w, false);
    if p != [] {
      if Signed(p[0]) == w.one {
        assert t[1..] == Scanned(p[1..], w, false);
        NeverLone(p[1..], w);
      } else {
        ScanLiteral(p, w, false);
        var (_, rest) := Literal(p, w, false);
        assert t[1..] == Scanned(rest, w, false);
        NeverLone(rest, w);
      }
    }
  }
}
