/** Pad-space comparison and its hash for 8-bit binary collations (drizzled/ctype-bin.cc,
    drizzled/internal/m_string.h). */
module PadSpace {
  import opened Basics

  // -------------------------------------------------------------------------
  // The order: both strings continue with spaces for ever.

  function Padded(s: seq<byte>, i: nat): byte { if i < |s| then s[i] else SPACE }

  ghost predicate SameTo(a: seq<byte>, b: seq<byte>, n: nat) {
    forall i: nat :: i < n ==> Padded(a, i) == Padded(b, i)
  }

  ghost predicate PadEqual(a: seq<byte>, b: seq<byte>) {
    forall i: nat :: Padded(a, i) == Padded(b, i)
  }

  ghost predicate PadLess(a: seq<byte>, b: seq<byte>) {
    exists i: nat :: SameTo(a, b, i) && Padded(a, i) < Padded(b, i)
  }

  ghost predicate PadAtMost(a: seq<byte>, b: seq<byte>) { PadLess(a, b) || PadEqual(a, b) }

  /** The comparison: its sign is that of the first difference of the padded strings. */
  method Strnncollsp8bitBin(a: seq<byte>, b: seq<byte>) returns (res: int)
    ensures res < 0 <==> PadLess(a, b)
    ensures res > 0 <==> PadLess(b, a)
    ensures res == 0 <==> PadEqual(a, b)
  {
    var length := if |a| < |b| then |a| else |b|;
    var k := 0;
    while k < length
      invariant k <= length
      invariant SameTo(a, b, k)
    {
      if a[k] != b[k] {
        FirstDifference(a, b, k);
        res := a[k] as int - b[k] as int;
        return;
      }
      k := k + 1;
    }
    if |a| != |b| {
      var swap, longer := 1, a;
      if |a| < |b| {
        swap, longer := -1, b;
      }
      while k < |longer|
        invariant length <= k <= |longer|
        invariant SameTo(a, b, k)
      {
        if longer[k] != SPACE {
          FirstDifference(a, b, k);
          return if longer[k] < SPACE then -swap else swap;
        }
        k := k + 1;
      }
    }
    Agree(a, b, k);
    return 0;
  }

  lemma FirstDifference(a: seq<byte>, b: seq<byte>, k: nat)
    requires SameTo(a, b, k) && Padded(a, k) != Padded(b, k)
    ensures PadLess(a, b) <==> Padded(a, k) < Padded(b, k)
    ensures PadLess(b, a) <==> Padded(b, k) < Padded(a, k)
    ensures !PadEqual(a, b)
  {
    FirstLess(a, b, k);
    FirstLess(b, a, k);
  }

  lemma FirstLess(a: seq<byte>, b: seq<byte>, k: nat)
    requires SameTo(a, b, k) && Padded(a, k) != Padded(b, k)
    ensures PadLess(a, b) <==> Padded(a, k) < Padded(b, k)
  {
    if PadLess(a, b) {
      var i: nat :| SameTo(a, b, i) && Padded(a, i) < Padded(b, i);
      assert i < k ==> Padded(a, i) == Padded(b, i);
      assert k < i ==> Padded(a, k) == Padded(b, k);
    }
  }

  lemma Agree(a: seq<byte>, b: seq<byte>, k: nat)
    requires SameTo(a, b, k) && |a| <= k && |b| <= k
    ensures PadEqual(a, b) && !PadLess(a, b) && !PadLess(b, a)
  {
    assert forall i: nat :: Padded(a, i) == Padded(b, i);
  }

  /** Exactly one of less, greater and equal. */
  lemma Trichotomy(a: seq<byte>, b: seq<byte>)
    ensures PadLess(a, b) || PadLess(b, a) || PadEqual(a, b)
    ensures !(PadLess(a, b) && PadLess(b, a)) && !(PadLess(a, b) && PadEqual(a, b))
  {
    var k := 0;
    while k < |a| + |b| && Padded(a, k) == Padded(b, k)
      invariant SameTo(a, b, k)
    {
      k := k + 1;
    }
    if Padded(a, k) != Padded(b, k) {
      FirstDifference(a, b, k);
    } else {
      Agree(a, b, k);
    }
  }

  lemma AtMostIsTransitive(a: seq<byte>, b: seq<byte>, c: seq<byte>)
    requires PadAtMost(a, b) && PadAtMost(b, c)
    ensures PadAtMost(a, c)
    ensures PadLess(a, b) || PadLess(b, c) ==> PadLess(a, c)
  {
    if PadEqual(a, b) {
      if PadLess(b, c) {
        var j: nat :| SameTo(b, c, j) && Padded(b, j) < Padded(c, j);
        assert SameTo(a, c, j) && Padded(a, j) < Padded(c, j);
      }
    } else {
      var i: nat :| SameTo(a, b, i) && Padded(a, i) < Padded(b, i);
      if PadEqual(b, c) {
        assert SameTo(a, c, i) && Padded(a, i) < Padded(c, i);
      } else {
        var j: nat :| SameTo(b, c, j) && Padded(b, j) < Padded(c, j);
        var m := if i < j then i else j;
        assert SameTo(a, c, m) && Padded(a, m) < Padded(c, m);
      }
    }
  }

  // -------------------------------------------------------------------------
  // The hash. `past` is the byte that follows the key in memory.

  /** C's `isspace` in the "C" locale. */

  /** How many bytes are hashed: all but trailing white space, and never less than one. */
  function Kept(key: seq<byte>): (n: nat)
    ensures 1 <= n && (key != [] ==> n <= |key|)
  {
    if |key| > 1 && IsSpace(key[|key| - 1]) then Kept(key[..|key| - 1])
    else if key == [] then 1 else |key|
  }

  function Hashed(key: seq<byte>, past: byte): seq<byte> { (key + [past])[..Kept(key)] }

  function Wrap(n: int): uint32 { n % 0x1_0000_0000 }

  /** Bitwise exclusive or. */
  function XorNat(x: nat, y: nat): nat
    decreases x
  {
    if x == 0 then y else if y == 0 then x else (x + y) % 2 + 2 * XorNat(x / 2, y / 2)
  }

  lemma {:induction false} XorBound(k: nat, x: nat, y: nat)
    requires x < Pow2(k) && y < Pow2(k)
    ensures XorNat(x, y) < Pow2(k)
    decreases k
  {
    if x != 0 && y != 0 {
      XorBound(k - 1, x / 2, y / 2);
    }
  }

  lemma ThirtyTwoBits()
    ensures Pow2(32) == 0x1_0000_0000
  {
    assert Pow2(8) == 0x100;
    assert Pow2(16) == 0x1_0000;
    assert Pow2(24) == 0x100_0000;
  }

  function Xor(x: uint32, y: uint32): uint32 {
    ThirtyTwoBits();
    XorBound(32, x, y);
    XorNat(x, y)
  }

  datatype HashState = HashState(nr1: uint32, nr2: uint32)

  function HashByte(st: HashState, b: byte): HashState {
    HashState(HashNr1(st.nr1, st.nr2, b), Wrap(st.nr2 + 3))
  }

  function HashNr1(nr1: uint32, nr2: uint32, b: byte): uint32 {
    Xor(nr1, Wrap((nr1 % 64 + nr2) * b + nr1 * 256))
  }

  function HashBytes(st: HashState, bytes: seq<byte>): HashState {
    if bytes == [] then st
    else HashByte(HashBytes(st, bytes[..|bytes| - 1]), bytes[|bytes| - 1])
  }

  method SkipTrailingSpace(key: seq<byte>) returns (n: nat)
    ensures n == Kept(key)
  {
    var end: nat := |key|;
    assert key[..end] == key;
    while end > 0
      invariant end <= |key| && (key != [] ==> 0 < end)
      invariant Kept(key[..end]) == Kept(key)
      decreases end
    {
      end := end - 1;
      assert key[..end + 1][..end] == key[..end];
      if !IsSpace(key[end]) || end == 0 {
        break;
      }
    }
    return end + 1;
  }

  method HashSort8bitBin(key: seq<byte>, past: byte, nr1: uint32, nr2: uint32) returns (n1: uint32, n2: uint32)
    ensures HashState(n1, n2) == HashBytes(HashState(nr1, nr2), Hashed(key, past))
  {
    var memory := key + [past];
    var n := SkipTrailingSpace(key);
    n1, n2 := nr1, nr2;
    for pos := 0 to n
      invariant HashState(n1, n2) == HashBytes(HashState(nr1, nr2), memory[..pos])
    {
      assert memory[..pos + 1][..pos] == memory[..pos];
      n1, n2 := HashNr1(n1, n2, memory[pos]), Wrap(n2 + 3);
    }
  }

  /** What is kept of a key: it ends where only white space follows. */
  lemma {:induction false} KeptBounds(key: seq<byte>)
    requires key != []
    ensures Kept(key) == 1 || !IsSpace(key[Kept(key) - 1])
    ensures forall i :: Kept(key) <= i < |key| ==> IsSpace(key[i])
    decreases |key|
  {
    if |key| > 1 && IsSpace(key[|key| - 1]) {
      KeptBounds(key[..|key| - 1]);
    }
  }

  lemma EqualKeysKeepTheSame(a: seq<byte>, b: seq<byte>)
    requires PadEqual(a, b) && a != [] && b != []
    ensures a[..Kept(a)] == b[..Kept(b)]
  {
    KeptBounds(a);
    KeptBounds(b);
    KeptAtMost(a, b);
    KeptAtMost(b, a);
    forall i | 0 <= i < Kept(a)
      ensures a[i] == b[i]
    {
      assert Padded(a, i) == Padded(b, i);
    }
  }

  lemma KeptAtMost(a: seq<byte>, b: seq<byte>)
    requires PadEqual(a, b) && a != [] && b != []
    ensures Kept(a) <= Kept(b)
  {
    KeptBounds(a);
    KeptBounds(b);
    var last := Kept(a) - 1;
    assert Padded(a, last) == Padded(b, last);
  }

  /** Keys that compare equal hash alike from every state, whatever follows them in memory,
      as long as neither is empty. */
  lemma EqualKeysHashAlike(a: seq<byte>, pastA: byte, b: seq<byte>, pastB: byte)
    requires PadEqual(a, b) && a != [] && b != []
    ensures Hashed(a, pastA) == Hashed(b, pastB)
  {
    EqualKeysKeepTheSame(a, b);
    assert (a + [pastA])[..Kept(a)] == a[..Kept(a)];
    assert (b + [pastB])[..Kept(b)] == b[..Kept(b)];
  }

  /** The byte that stands for a key of spaces: an empty key is hashed as the byte after it. */
  function Front(key: seq<byte>, past: byte): byte { if key == [] then past else SPACE }

  /** The states that a hash comes to after `k` bytes from the states (1, 4) and (0, 4) that its
      callers start at, and many more: here a byte is multiplied by something, but not by much. */
  predicate Usual(st: HashState) { 0 < st.nr1 % 64 + st.nr2 < 0x100_0000 }

  lemma StatesAreUsual(nr1: uint32, k: nat)
    requires k < 5_000_000
    ensures Usual(HashState(nr1, 4 + 3 * k))
  {
  }

  /** For keys that compare equal, the hashes agree from a given state if and only if neither key is
      empty, or the bytes that stand for them are the same. */
  lemma EqualKeysHashAlikeFrom(st: HashState, a: seq<byte>, pastA: byte, b: seq<byte>, pastB: byte)
    requires PadEqual(a, b) && Usual(st)
    ensures HashBytes(st, Hashed(a, pastA)) == HashBytes(st, Hashed(b, pastB))
       <==> (a != [] && b != []) || Front(a, pastA) == Front(b, pastB)
  {
    if a != [] && b != [] {
      EqualKeysHashAlike(a, pastA, b, pastB);
    } else {
      BlankKeyHashed(a, b, pastA);
      BlankKeyHashed(b, a, pastB);
      BytesHashApart(st, Front(a, pastA), Front(b, pastB));
    }
  }

  /** And for the same condition they agree from every state whatever. */
  lemma EqualKeysHashAlikeIff(a: seq<byte>, pastA: byte, b: seq<byte>, pastB: byte)
    requires PadEqual(a, b)
    ensures (forall st :: HashBytes(st, Hashed(a, pastA)) == HashBytes(st, Hashed(b, pastB)))
       <==> (a != [] && b != []) || Front(a, pastA) == Front(b, pastB)
  {
    if a != [] && b != [] {
      EqualKeysHashAlike(a, pastA, b, pastB);
    } else {
      BlankKeyHashed(a, b, pastA);
      BlankKeyHashed(b, a, pastB);
      EqualKeysHashAlikeFrom(HashState(1, 4), a, pastA, b, pastB);
    }
  }

  lemma BlankKeyHashed(a: seq<byte>, b: seq<byte>, past: byte)
    requires PadEqual(a, b) && (a == [] || b == [])
    ensures Hashed(a, past) == [Front(a, past)]
  {
    if a != [] {
      KeptBounds(a);
      forall i | 0 <= i < |a| ensures a[i] == SPACE { assert Padded(a, i) == Padded(b, i); }
    }
  }

  /** From a usual state different bytes hash differently. */
  lemma BytesHashApart(st: HashState, x: byte, y: byte)
    requires Usual(st)
    ensures HashBytes(st, [x]) == HashBytes(st, [y]) <==> x == y
  {
    assert [x][..0] == [] == [y][..0];
    assert HashBytes(st, [x]) == HashByte(st, x) && HashBytes(st, [y]) == HashByte(st, y);
    var m, c := st.nr1 % 64 + st.nr2, st.nr1 * 256;
    if HashByte(st, x) == HashByte(st, y) {
      XorCancels(st.nr1, Wrap(m * x + c), Wrap(m * y + c));
      WrapsApart(m, x, y, c);
    }
  }

  lemma XorHalves(x: nat, y: nat)
    ensures XorNat(x, y) == (x + y) % 2 + 2 * XorNat(x / 2, y / 2)
  {
  }

  lemma SameParity(x: nat, y: nat, z: nat, p: nat, q: nat)
    requires (x + y) % 2 + 2 * p == (x + z) % 2 + 2 * q
    ensures p == q && y % 2 == z % 2
  {
  }

  lemma {:induction false} XorCancels(x: nat, y: nat, z: nat)
    requires XorNat(x, y) == XorNat(x, z)
    ensures y == z
    decreases x
  {
    if x > 0 {
      XorHalves(x, y);
      XorHalves(x, z);
      SameParity(x, y, z, XorNat(x / 2, y / 2), XorNat(x / 2, z / 2));
      XorCancels(x / 2, y / 2, z / 2);
    }
  }

  lemma WrapsApart(m: nat, x: byte, y: byte, c: nat)
    requires 0 < m < 0x100_0000 && Wrap(m * x + c) == Wrap(m * y + c)
    ensures x == y
  {
    var d := m * x - m * y;
    assert d == m * (x - y);
    Bounded(m, x, y);
    assert d % 0x1_0000_0000 == 0;
  }

  lemma Bounded(m: nat, x: byte, y: byte)
    requires 0 < m < 0x100_0000
    ensures -0x1_0000_0000 < m * x - m * y < 0x1_0000_0000
    ensures m * x - m * y == 0 ==> x == y
  {
    assert 0 <= m * x <= m * 255 && 0 <= m * y <= m * 255;
    assert m * x - m * y == m * (x - y);
  }

  /** The empty key and a single space compare equal, and hash apart when anything but a space
      follows the empty key. */
  lemma EmptyKeyHashesApart(st: HashState, past: byte)
    requires Usual(st) && past != SPACE
    ensures PadEqual([], [SPACE])
    ensures HashBytes(st, Hashed([], past)) != HashBytes(st, Hashed([SPACE], 0))
  {
    EqualKeysHashAlikeFrom(st, [], past, [SPACE], 0);
  }

  // -------------------------------------------------------------------------
  // The hash bit by bit.

  function Bit(n: nat, i: nat): nat { if i == 0 then n % 2 else Bit(n / 2, i - 1) }

  /** Exclusive or: a bit is set where just one of the two has it. */
  lemma {:induction false} XorBit(x: nat, y: nat, i: nat)
    ensures Bit(XorNat(x, y), i) == if Bit(x, i) == Bit(y, i) then 0 else 1
    decreases i
  {
    XorHalves(x, y);
    LowAndHigh(x, y, XorNat(x / 2, y / 2));
    if i > 0 {
      XorBit(x / 2, y / 2, i - 1);
    }
  }

  lemma LowAndHigh(x: nat, y: nat, h: nat)
    ensures ((x + y) % 2 + 2 * h) % 2 == (if x % 2 == y % 2 then 0 else 1) && ((x + y) % 2 + 2 * h) / 2 == h
  {
  }

  /** A byte changes the state's first number in the bits of its product with the low six bits of that number and
      the second number, added to the first number moved up by eight bits; the second number grows by 3. */
  lemma ByteHashed(st: HashState, b: byte, product: nat, i: nat)
    requires product == (st.nr1 % 0x40 + st.nr2) * b
    ensures
      var moved := st.nr1 * 0x100;
      Bit(HashBytes(st, [b]).nr1, i) == if Bit(st.nr1, i) == Bit((product + moved) % 0x1_0000_0000, i) then 0 else 1
    ensures HashBytes(st, [b]).nr2 == (st.nr2 + 3) % 0x1_0000_0000
  {
    OneByte(st, b);
    XorBit(st.nr1, Wrap(product + st.nr1 * 256), i);
  }

  lemma OneByte(st: HashState, b: byte)
    ensures HashBytes(st, [b]) == HashByte(st, b)
  {
    assert [b][..0] == [];
  }

  /** Bytes are hashed one after the other. */
  lemma {:induction false} HashedInOrder(st: HashState, a: seq<byte>, b: seq<byte>)
    ensures HashBytes(st, a + b) == HashBytes(HashBytes(st, a), b)
    decreases |b|
  {
    if b == [] {
      assert a + b == a;
    } else {
      assert (a + b)[..|a + b| - 1] == a + b[..|b| - 1];
      HashedInOrder(st, a, b[..|b| - 1]);
    }
  }
}
