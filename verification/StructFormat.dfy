/** The format language of struct.c: options, sizes, alignment. A format is a C string, so it holds
    no NUL; sizes are those of an LP64 machine. */
module StructFormat {
  import opened Basics
  import opened StructInt

  const SHORT: nat := 2
  const INT: nat := 4
  const LONG: nat := 8
  const SIZE_T: nat := 8
  const FLOAT: nat := 4
  const DOUBLE: nat := 8
  const MAXINTSIZE: nat := 32
  const MAXALIGN: nat := 8

  datatype Error =
    | SizeTooLarge | AlignNotPowerOf2 | InvalidOption | BadArgument | StringTooShort
    | DataTooShort | Unfinished | NeedsSize | NoFixedSize
    | Undefined  // the C code's behaviour is undefined

  datatype Result<T> = Ok(value: T) | Err(error: Error)

  datatype Header = Header(endian: Endian, align: nat)

  predicate IsDigit(c: char) { '0' <= c <= '9' }

  function NumPrefix(fmt: string, a: nat): (r: (nat, string))
    ensures |r.1| <= |fmt|
  {
    if fmt != [] && IsDigit(fmt[0]) then NumPrefix(fmt[1..], a * 10 + (fmt[0] as int - '0' as int))
    else (a, fmt)
  }

  /** getnum: the number the format continues with, or a default. */
  function GetNum(fmt: string, df: nat): (r: (nat, string))
    ensures |r.1| <= |fmt|
  {
    if fmt != [] && IsDigit(fmt[0]) then NumPrefix(fmt, 0) else (df, fmt)
  }

  /** What an option is about, as the switches tell them apart. */
  datatype Kind = Integer(signed: bool) | Pad | Float | Chars | CString | Control {
    predicate TakesArgument() { !Pad? && !Control? }
  }

  function KindOf(opt: char): Kind {
    if opt == 'b' || opt == 'h' || opt == 'l' || opt == 'i' then Integer(true)
    else if opt == 'B' || opt == 'H' || opt == 'L' || opt == 'I' || opt == 'T' then Integer(false)
    else if opt == 'x' then Pad
    else if opt == 'f' || opt == 'd' then Float
    else if opt == 'c' then Chars
    else if opt == 's' then CString
    else Control
  }

  /** optsize */
  function OptSize(opt: char, fmt: string): (r: Result<(nat, string)>)
    ensures r.Ok? ==> |r.value.1| <= |fmt|
  {
    if opt == 'B' || opt == 'b' then Ok((1, fmt))
    else if opt == 'H' || opt == 'h' then Ok((SHORT, fmt))
    else if opt == 'L' || opt == 'l' then Ok((LONG, fmt))
    else if opt == 'T' then Ok((SIZE_T, fmt))
    else if opt == 'f' then Ok((FLOAT, fmt))
    else if opt == 'd' then Ok((DOUBLE, fmt))
    else if opt == 'x' then Ok((1, fmt))
    else if opt == 'c' then Ok(GetNum(fmt, 1))
    else if opt == 'i' || opt == 'I' then
      var r := GetNum(fmt, INT);
      if r.0 > MAXINTSIZE then Err(SizeTooLarge) else Ok(r)
    else Ok((0, fmt))
  }

  /** Bitwise and. */
  function And(x: nat, y: nat): (r: nat)
    ensures r <= x && r <= y
    decreases x
  {
    if x == 0 || y == 0 then 0 else (if x % 2 == 1 && y % 2 == 1 then 1 else 0) + 2 * And(x / 2, y / 2)
  }

  /** isp2 */
  predicate IsPower2(x: nat) { x > 0 && And(x, x - 1) == 0 }

  /** gettoalign */
  function ToAlign(len: nat, h: Header, k: Kind, size: nat): nat {
    if size == 0 || k.Chars? then 0 else Padding(len, if size > h.align then h.align else size)
  }

  function Padding(len: nat, size: nat): nat {
    if size == 0 then 0 else And(size - And(len, size - 1), size - 1)
  }

  /** controloptions */
  function ControlOptions(opt: char, fmt: string, h: Header): (r: Result<(string, Header)>)
    ensures r.Ok? ==> |r.value.0| <= |fmt|
  {
    if opt == ' ' then Ok((fmt, h))
    else if opt == '>' then Ok((fmt, h.(endian := Big)))
    else if opt == '<' then Ok((fmt, h.(endian := Little)))
    else if opt == '!' then
      var r := GetNum(fmt, MAXALIGN);
      if !IsPower2(r.0) then Err(AlignNotPowerOf2) else Ok((r.1, h.(align := r.0)))
    else Err(InvalidOption)
  }

  predicate IsAlnum(c: char) { IsDigit(c) || 'a' <= c <= 'z' || 'A' <= c <= 'Z' }

  /** An option as the three functions meet it: a field with its size and the header in force, a size
      that is too large, or a control option that is refused (size passes over letters and digits). */
  datatype Item = Field(k: Kind, size: nat, h: Header) | BadSize(error: Error) | Refused(error: Error, alnum: bool)

  /** optsize and controloptions for the next option: the item, what is left of the format, and the
      header from there on. */
  function Next(fmt: string, h: Header): (r: (Item, string, Header))
    requires fmt != []
    ensures |r.1| < |fmt|
  {
    match OptSize(fmt[0], fmt[1..])
    case Err(e) => (BadSize(e), "", h)
    case Ok((size, rest)) =>
      if !KindOf(fmt[0]).Control? then (Field(KindOf(fmt[0]), size, h), rest, h)
      else match ControlOptions(fmt[0], rest, h)
        case Ok((rest', h')) => (Field(Control, size, h), rest', h')
        case Err(e) => (Refused(e, IsAlnum(fmt[0])), rest, h)
  }

  /** The items of a format, in the order in which they are met. */
  function Items(fmt: string, h: Header): seq<Item>
    decreases |fmt|
  {
    if fmt == [] then []
    else
      var (item, rest, h') := Next(fmt, h);
      [item] + Items(rest, h')
  }

  /** Padding bytes have size 1, `s` and the control options have no size of their own, and integers
      fit the buffers of MAXINTSIZE bytes that they are converted in. */
  predicate WellSized(items: seq<Item>) {
    forall i :: 0 <= i < |items| && items[i].Field? ==>
      && (items[i].k.Pad? ==> items[i].size == 1)
      && (items[i].k.CString? || items[i].k.Control? ==> items[i].size == 0)
      && (items[i].k.Integer? ==> items[i].size <= MAXINTSIZE)
  }

  lemma {:induction false} ItemsAreWellSized(fmt: string, h: Header)
    ensures WellSized(Items(fmt, h))
    decreases |fmt|
  {
    if fmt != [] {
      var (item, rest, h') := Next(fmt, h);
      ItemsAreWellSized(rest, h');
      assert WellSized([item]);
    }
  }

  // -------------------------------------------------------------------------
  // Powers of two.

  /** Masking with 2^k - 1 is the remainder. */
  lemma {:induction false} AndMask(k: nat, x: nat)
    ensures And(x, Pow2(k) - 1) == x % Pow2(k)
    decreases k
  {
    if k != 0 {
      AndMask(k - 1, x / 2);
      Halves(x, Pow2(k - 1));
      AndStep(x, Pow2(k - 1));
    }
  }

  lemma AndStep(x: nat, p: nat)
    requires 1 <= p
    ensures And(x, 2 * p - 1) == x % 2 + 2 * And(x / 2, p - 1)
  {
    assert (2 * p - 1) / 2 == p - 1 && (2 * p - 1) % 2 == 1;
  }

  /** The test in the source accepts exactly the powers of two. */
  lemma {:induction false} IsPower2Iff(x: nat)
    ensures IsPower2(x) <==> exists k: nat :: x == Pow2(k)
    decreases x
  {
    if x == 0 {
    } else if x == 1 {
      assert Pow2(0) == 1;
    } else if x % 2 == 1 {
      assert And(x / 2, (x - 1) / 2) != 0 by { AndSelf(x / 2); }
      assert forall k: nat :: x == Pow2(k) ==> k == 0;
    } else {
      IsPower2Iff(x / 2);
      assert (x - 1) / 2 == x / 2 - 1 && (x - 1) % 2 == 1;
      assert And(x, x - 1) == 2 * And(x / 2, x / 2 - 1);
      HalfPower(x);
    }
  }

  lemma HalfPower(x: nat)
    requires 2 <= x && x % 2 == 0
    ensures (exists k: nat :: x == Pow2(k)) <==> (exists k: nat :: x / 2 == Pow2(k))
  {
    if k: nat :| x / 2 == Pow2(k) {
      assert x == Pow2(k + 1);
    }
    if k: nat :| x == Pow2(k) {
      assert k > 0;
      assert x / 2 == Pow2(k - 1);
    }
  }

  lemma {:induction false} AndSelf(x: nat)
    ensures And(x, x) == x
  {
    if x != 0 {
      AndSelf(x / 2);
    }
  }

  ghost predicate LeastPadding(len: nat, m: nat, t: nat)
    requires 1 <= m
  {
    t < m && (len + t) % m == 0
  }

  /** Padding always lands on the next multiple of `m` if and only if `m` is a power of two; any other
      `m` is already padded wrongly at the start of a structure. */
  lemma PaddingIsLeastIff(m: nat)
    requires 1 <= m
    ensures (forall len: nat :: LeastPadding(len, m, Padding(len, m))) <==> IsPower2(m)
  {
    if IsPower2(m) {
      forall len: nat
        ensures LeastPadding(len, m, Padding(len, m))
      {
        PowerOf2Pads(len, m);
      }
    } else {
      OthersPadTheStart(m);
    }
  }

  /** In the closed form: (m - len mod m) mod m bytes. */
  lemma PowerOf2Pads(len: nat, m: nat)
    requires IsPower2(m)
    ensures Padding(len, m) == (m - len % m) % m && LeastPadding(len, m, Padding(len, m))
  {
    IsPower2Iff(m);
    var k: nat :| m == Pow2(k);
    AndMask(k, len);
    AndMask(k, m - len % m);
    PadToMultiple(len, m);
  }

  lemma OthersPadTheStart(m: nat)
    requires 1 <= m && !IsPower2(m)
    ensures !LeastPadding(0, m, Padding(0, m))
  {
    assert And(0, m - 1) == 0;
    DivUnique(And(m, m - 1), m, 0, And(m, m - 1));
  }

  lemma PadToMultiple(len: nat, m: nat)
    requires 1 <= m
    ensures LeastPadding(len, m, (m - len % m) % m)
  {
    var q, r := len / m, len % m;
    assert len == m * q + r;
    if r == 0 {
      DivUnique(m - r, m, 1, 0);
      DivUnique(len, m, q, 0);
    } else {
      DivUnique(m - r, m, 0, m - r);
      DivUnique(len + (m - r), m, q + 1, 0);
    }
  }
}
