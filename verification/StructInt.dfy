/** Integers as bytes (struct.c): putinteger, getinteger and correctbytes. */
module StructInt {
  import opened Basics

  type uint64 = n: int | 0 <= n < 0x1_0000_0000_0000_0000

  const TWO64: int := 0x1_0000_0000_0000_0000

  datatype Endian = Big | Little

  function Pow256(n: nat): (r: nat)
    ensures 1 <= r
  {
    if n == 0 then 1 else 256 * Pow256(n - 1)
  }

  function Reverse(s: seq<byte>): (r: seq<byte>)
    ensures |r| == |s|
  {
    if s == [] then [] else Reverse(s[1..]) + [s[0]]
  }

  /** Base-256 digits, least significant first. */
  function Digits(value: nat, size: nat): (r: seq<byte>)
    ensures |r| == size
  {
    if size == 0 then [] else [value % 256] + Digits(value / 256, size - 1)
  }

  function Number(digits: seq<byte>): nat {
    if digits == [] then 0 else digits[0] + 256 * Number(digits[1..])
  }

  /** The bytes of a value in the given order. */
  function Bytes(value: nat, endian: Endian, size: nat): (r: seq<byte>)
    ensures |r| == size
  {
    if endian.Little? then Digits(value, size) else Reverse(Digits(value, size))
  }

  function InOrder(bytes: seq<byte>, endian: Endian): seq<byte> {
    if endian.Little? then bytes else Reverse(bytes)
  }

  /** The conversions `(Uinttype)(Inttype)n` and `(Uinttype)n`. */
  function ToUnsigned(n: int): uint64 { n % TWO64 }

  /** The conversion `(Inttype)l`. */
  function ToSigned(l: uint64): int { if l < TWO64 / 2 then l else l - TWO64 }

  function ShiftRight(l: nat, k: nat): nat { if k == 0 then l else ShiftRight(l / 2, k - 1) }

  function LowBits(l: nat, k: nat): nat { if k == 0 then 0 else l % 2 + 2 * LowBits(l / 2, k - 1) }

  /** What getinteger makes of the bytes read into 64 bits: `mask` has every bit set from the sign bit
      of a `size`-byte number up; `l & mask` tests those bits and `l | mask` sets them. */
  function Extend(l: uint64, issigned: bool, size: nat): int
    requires issigned ==> 1 <= size <= 8
  {
    if !issigned || ShiftRight(l, 8 * size - 1) == 0 then (if issigned then ToSigned(l) else l)
    else ToSigned((LowBits(l, 8 * size - 1) + TWO64 - Pow2(8 * size - 1)) % TWO64)
  }

  lemma {:induction false} BitsAreDivision(l: nat, k: nat)
    ensures ShiftRight(l, k) == l / Pow2(k) && LowBits(l, k) == l % Pow2(k)
    decreases k
  {
    if k != 0 {
      BitsAreDivision(l / 2, k - 1);
      Halves(l, Pow2(k - 1));
    }
  }

  lemma Halves(x: nat, p: nat)
    requires 1 <= p
    ensures x / (2 * p) == x / 2 / p && x % (2 * p) == x % 2 + 2 * ((x / 2) % p)
  {
    var q, r := x / 2 / p, x / 2 % p;
    assert x / 2 == p * q + r;
    assert x == (2 * p) * q + (2 * r + x % 2);
    DivUnique(x, 2 * p, q, 2 * r + x % 2);
  }

  lemma Times16(k: nat)
    requires 4 <= k
    ensures Pow2(k) == 16 * Pow2(k - 4)
  {
    assert Pow2(k) == 2 * Pow2(k - 1) && Pow2(k - 1) == 2 * Pow2(k - 2);
    assert Pow2(k - 2) == 2 * Pow2(k - 3) && Pow2(k - 3) == 2 * Pow2(k - 4);
  }

  /** The sign bit has half the weight of the first number that does not fit. */
  lemma {:induction false} SignBit(size: nat)
    requires 1 <= size
    ensures Pow256(size) == 2 * Pow2(8 * size - 1)
    decreases size
  {
    if size == 1 {
      assert Pow256(1) == 256 * Pow256(0);
      assert Pow2(1) == 2 * Pow2(0) && Pow2(2) == 2 * Pow2(1) && Pow2(3) == 2 * Pow2(2);
      Times16(7);
    } else {
      SignBit(size - 1);
      Times16(8 * size - 1);
      Times16(8 * size - 5);
    }
  }

  lemma HalfFits(size: nat)
    requires 1 <= size <= 8
    ensures 1 <= Pow256(size) / 2 <= TWO64 / 2 && Pow256(size) == 2 * (Pow256(size) / 2)
  {
    EightBytes();
    Pow256Grows(size, 8);
    assert Pow256(size) == 256 * Pow256(size - 1);
  }

  lemma EightBytes()
    ensures Pow256(8) == TWO64
  {
    assert Pow256(1) == 256 * Pow256(0) == 256;
    assert Pow256(2) == 256 * Pow256(1) == 0x1_0000;
    assert Pow256(3) == 256 * Pow256(2) == 0x100_0000;
    assert Pow256(4) == 256 * Pow256(3) == 0x1_0000_0000;
    assert Pow256(5) == 256 * Pow256(4) == 0x100_0000_0000;
    assert Pow256(6) == 256 * Pow256(5) == 0x1_0000_0000_0000;
    assert Pow256(7) == 256 * Pow256(6) == 0x100_0000_0000_0000;
    assert Pow256(8) == 256 * Pow256(7);
  }

  lemma {:induction false} Pow256Grows(m: nat, n: nat)
    requires m <= n
    ensures 1 <= Pow256(m) <= Pow256(n)
  {
    if m < n {
      Pow256Grows(m, n - 1);
    } else if m > 0 {
      Pow256Grows(m - 1, m - 1);
    }
  }

  /** getinteger as a function of its bytes. */
  function ReadInt(field: seq<byte>, endian: Endian, issigned: bool): int
    requires issigned ==> 1 <= |field| <= 8
  {
    Extend(Number(InOrder(field, endian)) % TWO64, issigned, |field|)
  }

  method PutInteger(n: int, endian: Endian, size: nat) returns (r: seq<byte>)
    ensures r == Bytes(ToUnsigned(n), endian, size)
  {
    var buff := new byte[size](_ => 0);
    if endian.Little? {
      PutLittle(buff, ToUnsigned(n));
    } else {
      PutBig(buff, ToUnsigned(n));
    }
    r := buff[..];
  }

  method PutLittle(buff: array<byte>, value0: nat)
    modifies buff
    ensures buff[..] == Digits(value0, buff.Length)
  {
    var i, value := 0, value0;
    while i < buff.Length
      invariant 0 <= i <= buff.Length
      invariant buff[..i] + Digits(value, buff.Length - i) == Digits(value0, buff.Length)
    {
      buff[i] := value % 256;
      value := value / 256;
      assert buff[..i + 1] == buff[..i] + [buff[i]];
      i := i + 1;
    }
  }

  method PutBig(buff: array<byte>, value0: nat)
    modifies buff
    ensures buff[..] == Reverse(Digits(value0, buff.Length))
  {
    var i, value := buff.Length - 1, value0;
    while i >= 0
      invariant -1 <= i < buff.Length
      invariant Reverse(Digits(value, i + 1)) + buff[i + 1..] == Reverse(Digits(value0, buff.Length))
    {
      buff[i] := value % 256;
      value := value / 256;
      assert buff[i..] == [buff[i]] + buff[i + 1..];
      i := i - 1;
    }
  }

  method GetInteger(buff: seq<byte>, endian: Endian, issigned: bool) returns (r: int)
    requires issigned ==> 1 <= |buff| <= 8
    ensures r == ReadInt(buff, endian, issigned)
  {
    var l: uint64 := 0;
    var size := |buff|;
    if endian.Big? {
      for i := 0 to size
        invariant l == Number(Reverse(buff[..i])) % TWO64
      {
        assert buff[..i + 1] == buff[..i] + [buff[i]];
        ReverseSnoc(buff[..i], buff[i]);
        ShiftMod(Number(Reverse(buff[..i])), l, buff[i]);
        l := (l * 256) % TWO64 + buff[i];
      }
      assert buff[..size] == buff;
    } else {
      for i := size downto 0
        invariant l == Number(buff[i..]) % TWO64
      {
        ShiftMod(Number(buff[i + 1..]), l, buff[i]);
        l := (l * 256) % TWO64 + buff[i];
      }
      assert buff[0..] == buff;
    }
    r := Extend(l, issigned, size);
  }

  /** correctbytes, for bytes that are not in the native order. */
  method CorrectBytes(b: array<byte>, endian: Endian, native: Endian)
    modifies b
    ensures b[..] == if endian == native then old(b[..]) else Reverse(old(b[..]))
  {
    if endian != native {
      var i, size := 0, b.Length;
      while true
        invariant 0 <= i && size == b.Length - i && i <= size
        invariant forall k :: 0 <= k < i ==> b[k] == old(b[b.Length - 1 - k]) && b[b.Length - 1 - k] == old(b[k])
        invariant forall k :: i <= k < size ==> b[k] == old(b[k])
        decreases size
      {
        size := size - 1;
        if i >= size {
          break;
        }
        b[i], b[size] := b[size], b[i];
        i := i + 1;
      }
      ghost var was := old(b[..]);
      forall k | 0 <= k < b.Length
        ensures b[k] == Reverse(was)[k]
      {
        ReverseAt(was, k);
      }
    }
  }

  lemma {:induction false} ReverseSnoc(s: seq<byte>, b: byte)
    ensures Reverse(s + [b]) == [b] + Reverse(s)
  {
    if s == [] {
      assert s + [b] == [b] && [b][1..] == [];
    } else {
      assert (s + [b])[1..] == s[1..] + [b];
      ReverseSnoc(s[1..], b);
    }
  }

  lemma {:induction false} ReverseTwice(s: seq<byte>)
    ensures Reverse(Reverse(s)) == s
  {
    if s != [] {
      ReverseTwice(s[1..]);
      ReverseSnoc(Reverse(s[1..]), s[0]);
    }
  }

  lemma {:induction false} ReverseAt(s: seq<byte>, i: nat)
    requires i < |s|
    ensures Reverse(s)[i] == s[|s| - 1 - i]
  {
    if i < |s| - 1 {
      ReverseAt(s[1..], i);
    }
  }

  /** Shifting left by 8 leaves the low byte free. */
  lemma Low8Free(l: uint64)
    ensures l * 256 % TWO64 <= TWO64 - 256
  {
    var k := l * 256 / TWO64;
    assert l * 256 % TWO64 == 256 * (l - k * (TWO64 / 256));
  }

  /** Shifting a byte in from the right, in 64 bits. */
  lemma ShiftMod(n: nat, l: uint64, b: byte)
    requires l == n % TWO64
    ensures (l * 256) % TWO64 + b == (b + 256 * n) % TWO64
  {
    var q, k := n / TWO64, l * 256 / TWO64;
    assert n == TWO64 * q + l;
    assert l * 256 == TWO64 * k + (l * 256) % TWO64;
    assert (l * 256) % TWO64 + b < TWO64 by { Low8Free(l); }
    DivUnique(b + 256 * n, TWO64, 256 * q + k, (l * 256) % TWO64 + b);
  }

  lemma {:induction false} NumberOfDigits(value: nat, size: nat)
    ensures Number(Digits(value, size)) == value % Pow256(size)
    decreases size
  {
    if size != 0 {
      NumberOfDigits(value / 256, size - 1);
      DigitSplit(value, Pow256(size - 1));
    }
  }

  /** The remainder's lowest digit, and the remainder of the others. */
  lemma DigitSplit(value: nat, p: nat)
    requires 1 <= p
    ensures value % (256 * p) == value % 256 + 256 * (value / 256 % p)
  {
    var q, r := value / 256 / p, value / 256 % p;
    assert value / 256 == p * q + r;
    assert value == (256 * p) * q + (256 * r + value % 256);
    DivUnique(value, 256 * p, q, 256 * r + value % 256);
  }

  /** Reading back what was written, in the same order and with the same size. */
  function ReadBack(n: int, endian: Endian, issigned: bool, size: nat): int
    requires issigned ==> 1 <= size <= 8
  {
    ReadInt(Bytes(ToUnsigned(n), endian, size), endian, issigned)
  }

  lemma ReadBackDigits(n: int, endian: Endian, size: nat)
    ensures Number(InOrder(Bytes(ToUnsigned(n), endian, size), endian)) == ToUnsigned(n) % Pow256(size)
  {
    ReverseTwice(Digits(ToUnsigned(n), size));
    NumberOfDigits(ToUnsigned(n), size);
  }

  /** A `size`-byte number in two's complement. */
  function Representative(v: nat, issigned: bool, p: nat): int {
    if issigned && v >= p / 2 then v - p else v
  }

  lemma ExtendMeans(v: nat, issigned: bool, size: nat)
    requires 1 <= size <= 8 && v < Pow256(size)
    ensures v < TWO64 && Extend(v, issigned, size) == Representative(v, issigned, Pow256(size))
  {
    HalfFits(size);
    SignBit(size);
    BitsAreDivision(v, 8 * size - 1);
    var half := Pow256(size) / 2;
    if v >= half {
      DivUnique(v, half, 1, v - half);
    } else {
      DivUnique(v, half, 0, v);
    }
  }

  lemma {:induction false} Pow256Product(m: nat, n: nat)
    ensures Pow256(m + n) == Pow256(m) * Pow256(n)
  {
    if m != 0 {
      Pow256Product(m - 1, n);
    }
  }

  /** 256^size divides 2^64. */
  lemma DividesTwo64(size: nat) returns (k: nat)
    requires size <= 8
    ensures TWO64 == Pow256(size) * k
  {
    k := Pow256(8 - size);
    Pow256Product(size, 8 - size);
    EightBytes();
  }

  lemma ModOfMod(n: int, p: nat, k: nat)
    requires 1 <= p && TWO64 == p * k
    ensures (n % TWO64) % p == n % p
  {
    var a, b := n / TWO64, n % TWO64;
    assert n == TWO64 * a + b;
    assert n == p * (k * a + b / p) + b % p;
    DivUnique(n, p, k * a + b / p, b % p);
  }

  /** Reading back what was written gives the representative of the value modulo 256^size. */
  lemma IntegerRoundTrip(n: int, endian: Endian, issigned: bool, size: nat)
    requires 1 <= size <= 8
    ensures ReadBack(n, endian, issigned, size) == Representative(n % Pow256(size), issigned, Pow256(size))
  {
    ReadBackDigits(n, endian, size);
    ReducedTwice(n, size);
    ExtendMeans(n % Pow256(size), issigned, size);
  }

  lemma ReducedTwice(n: int, size: nat)
    requires size <= 8
    ensures ToUnsigned(n) % Pow256(size) == n % Pow256(size)
    ensures 0 <= n % Pow256(size) < Pow256(size) && n % Pow256(size) < TWO64
    ensures n % Pow256(size) % TWO64 == n % Pow256(size)
  {
    var k := DividesTwo64(size);
    ModOfMod(n, Pow256(size), k);
    EightBytes();
    Pow256Grows(size, 8);
    DivUnique(n % Pow256(size), TWO64, 0, n % Pow256(size));
  }

  /** The numbers a `size`-byte field can hold. */
  predicate InRange(n: int, issigned: bool, size: nat) {
    if issigned then 1 <= size <= 8 && -(Pow256(size) / 2) <= n < Pow256(size) / 2
    else 0 <= n < TWO64 && n < Pow256(size)
  }

  /** A number in range comes back itself, also from an unsigned field of more than 8 bytes. */
  lemma InRangeComesBack(n: int, endian: Endian, issigned: bool, size: nat)
    requires InRange(n, issigned, size)
    ensures ReadBack(n, endian, issigned, size) == n
  {
    if issigned {
      IntegerRoundTrip(n, endian, issigned, size);
      HalfFits(size);
      SmallMod(n, Pow256(size));
    } else {
      ReadBackDigits(n, endian, size);
      DivUnique(n, TWO64, 0, n);
      DivUnique(n, Pow256(size), 0, n);
      assert Number(InOrder(Bytes(ToUnsigned(n), endian, size), endian)) == n;
    }
  }

  lemma SmallMod(n: int, p: int)
    requires 1 <= p && -p <= n < p
    ensures n % p == if n < 0 then n + p else n
  {
    DivUnique(n, p, if n < 0 then -1 else 0, if n < 0 then n + p else n);
  }

  /** And only such a number does. */
  lemma OnlyInRangeComesBack(n: int, endian: Endian, issigned: bool, size: nat)
    requires 1 <= size <= 8
    ensures ReadBack(n, endian, issigned, size) == n <==> InRange(n, issigned, size)
  {
    IntegerRoundTrip(n, endian, issigned, size);
    HalfFits(size);
    if InRange(n, issigned, size) {
      InRangeComesBack(n, endian, issigned, size);
    }
  }

  /** The two byte orders are reversals of each other. */
  lemma OrdersAreReversals(n: int, size: nat)
    ensures Bytes(ToUnsigned(n), Big, size) == Reverse(Bytes(ToUnsigned(n), Little, size))
    ensures Bytes(ToUnsigned(n), Little, size) == Reverse(Bytes(ToUnsigned(n), Big, size))
  {
    ReverseTwice(Digits(ToUnsigned(n), size));
  }
}
