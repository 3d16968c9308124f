/** What a format's characters ask for, byte by byte (struct.c). */
module StructBytes {
  import opened Basics
  import opened StructInt
  import opened StructFormat
  import opened StructPack
  import StructRoundTrip

  /** The three ways to say the byte order: not at all, little endian, big endian. */
  predicate IsOrder(order: string) { order == "" || order == "<" || order == ">" }

  /** The least significant byte comes first. */
  predicate LowFirst(order: string, native: Endian) { if order == "" then native == Little else order == "<" }

  /** The integer options without a size of their own to read, and their sizes. */
  function LetterSize(letter: char): nat {
    match letter
    case 'b' => 1
    case 'B' => 1
    case 'h' => 2
    case 'H' => 2
    case 'l' => 8
    case 'L' => 8
    case 'T' => 8
    case _ => 0
  }

  predicate IsSigned(letter: char) { letter == 'b' || letter == 'h' || letter == 'l' || letter == 'i' }

  predicate AllDigits(s: string) { forall i :: 0 <= i < |s| ==> IsDigit(s[i]) }

  predicate IsNumber(digits: string) { digits != "" && AllDigits(digits) }

  /** The number that decimal digits stand for. */
  function Decimal(digits: string): nat
    requires AllDigits(digits)
  {
    if digits == "" then 0
    else
      assert IsDigit(digits[|digits| - 1]);
      Decimal(digits[..|digits| - 1]) * 10 + (digits[|digits| - 1] as int - '0' as int)
  }

  lemma {:induction false} ReadsDecimal(digits: string, done: string, rest: string)
    requires AllDigits(done) && AllDigits(digits) && (rest == "" || !IsDigit(rest[0]))
    ensures AllDigits(done + digits) && NumPrefix(digits + rest, Decimal(done)) == (Decimal(done + digits), rest)
    decreases |digits|
  {
    if digits == "" {
      assert done + digits == done && digits + rest == rest;
    } else {
      var more := done + [digits[0]];
      assert more[..|done|] == done && more + digits[1..] == done + digits;
      assert (digits + rest)[1..] == digits[1..] + rest;
      ReadsDecimal(digits[1..], more, rest);
    }
  }

  lemma NumberRead(digits: string, rest: string, df: nat)
    requires IsNumber(digits) && (rest == "" || !IsDigit(rest[0]))
    ensures GetNum(digits + rest, df) == (Decimal(digits), rest)
  {
    assert "" + digits == digits && (digits + rest)[0] == digits[0];
    ReadsDecimal(digits, "", rest);
  }

  // -------------------------------------------------------------------------
  // One option after the byte order.

  /** The header in force behind the byte order. */
  function HeaderAfter(order: string, native: Endian): Header {
    Header(if LowFirst(order, native) then Little else Big, 1)
  }

  /** The byte order packs nothing and takes no argument. */
  lemma OrderFirst(order: string, body: string, native: Endian, m: Machine, args: seq<Value>)
    requires IsOrder(order)
    ensures Pack(Items(order + body, DefaultHeader(native)), m, args, [])
         == Pack(Items(body, HeaderAfter(order, native)), m, args, [])
    ensures forall data :: Unpack(Items(order + body, DefaultHeader(native)), m, data, 0, [])
                        == Unpack(Items(body, HeaderAfter(order, native)), m, data, 0, [])
  {
    var h := DefaultHeader(native);
    if order == "" {
      assert order + body == body;
    } else {
      var fmt := order + body;
      assert fmt[0] == order[0] && fmt[1..] == body;
      assert Next(fmt, h) == (Field(Control, 0, h), body, HeaderAfter(order, native));
      var items := Items(body, HeaderAfter(order, native));
      assert Items(fmt, h) == [Field(Control, 0, h)] + items;
      assert ([Field(Control, 0, h)] + items)[1..] == items;
      assert [] + Zeros(0) + [] == [];
    }
  }

  /** A single option packs what its argument is encoded as. */
  lemma OneOption(body: string, h: Header, k: Kind, size: nat, m: Machine, args: seq<Value>)
    requires body != "" && h.align == 1 && !k.Control? && Next(body, h) == (Field(k, size, h), "", h)
    ensures Pack(Items(body, h), m, args, []) == Encode(k, size, h, m, args)
  {
    assert Items(body, h) == [Field(k, size, h)] + [];
    assert [Field(k, size, h)][1..] == [];
    NoPadding(0, h, k, size);
    if Encode(k, size, h, m, args).Ok? {
      var bytes := Encode(k, size, h, m, args).value;
      assert [] + Zeros(0) + bytes == bytes;
    }
  }

  /** The byte order and a single option. */
  lemma OnePacked(order: string, body: string, k: Kind, size: nat, native: Endian, args: seq<Value>)
    requires IsOrder(order) && body != "" && !k.Control?
    requires
      var h := HeaderAfter(order, native);
      Next(body, h) == (Field(k, size, h), "", h)
    ensures Pack(Items(order + body, DefaultHeader(native)), Lp64(native), args, [])
         == Encode(k, size, HeaderAfter(order, native), Lp64(native), args)
  {
    OrderFirst(order, body, native, Lp64(native), args);
    OneOption(body, HeaderAfter(order, native), k, size, Lp64(native), args);
  }

  lemma NoPadding(len: nat, h: Header, k: Kind, size: nat)
    requires h.align == 1
    ensures ToAlign(len, h, k, size) == 0
  {
    assert And(len, 0) == 0 && And(1, 0) == 0;
  }

  /** The options that stand for integers, with what is read for them. */
  predicate IntegerOption(body: string, size: nat) {
    || (|body| == 1 && LetterSize(body[0]) == size > 0)
    || (body == "i" && size == 4) || (body == "I" && size == 4)
    || (|body| > 1 && (body[0] == 'i' || body[0] == 'I') && IsNumber(body[1..]) && Decimal(body[1..]) == size <= 32)
  }

  lemma IntegerRead(body: string, size: nat, h: Header)
    requires IntegerOption(body, size)
    ensures Next(body, h) == (Field(Integer(IsSigned(body[0])), size, h), "", h)
  {
    if |body| == 1 {
      assert body == [body[0]] && body[1..] == "";
    } else {
      assert body[1..] + "" == body[1..];
      if |body| > 1 {
        NumberRead(body[1..], "", INT);
      }
    }
  }

  lemma OneInteger(order: string, body: string, size: nat, v: int, native: Endian)
    requires IsOrder(order) && IntegerOption(body, size) && Convertible(v)
    ensures Pack(Items(order + body, DefaultHeader(native)), Lp64(native), [Num(v)], [])
         == Ok(Bytes(ToUnsigned(v), HeaderAfter(order, native).endian, size))
  {
    IntegerRead(body, size, HeaderAfter(order, native));
    OnePacked(order, body, Integer(IsSigned(body[0])), size, native, [Num(v)]);
  }

  /** An integer's bytes: digits to the base 256 of its value modulo 2^64, in the order that the format
      asks for, as many as its option says. */
  lemma PackedInteger(order: string, body: string, size: nat, v: int, native: Endian)
    requires IsOrder(order) && IntegerOption(body, size) && Convertible(v)
    ensures
      var packed := Pack(Items(order + body, DefaultHeader(native)), Lp64(native), [Num(v)], []);
      && packed.Ok? && |packed.value| == size
      && forall i :: 0 <= i < size ==>
           packed.value[if LowFirst(order, native) then i else size - 1 - i] == v % TWO64 / Pow256(i) % 256
  {
    OneInteger(order, body, size, v, native);
    BytesInOrder(ToUnsigned(v), HeaderAfter(order, native).endian, size);
  }

  lemma BytesInOrder(value: nat, endian: Endian, size: nat)
    ensures forall i :: 0 <= i < size ==>
      Bytes(value, endian, size)[if endian == Little then i else size - 1 - i] == value / Pow256(i) % 256
  {
    forall i | 0 <= i < size
      ensures Bytes(value, endian, size)[if endian == Little then i else size - 1 - i] == value / Pow256(i) % 256
    {
      DigitAt(value, size, i);
      if endian == Big {
        ReverseAt(Digits(value, size), size - 1 - i);
      }
    }
  }

  lemma {:induction false} DigitAt(value: nat, size: nat, i: nat)
    requires i < size
    ensures Digits(value, size)[i] == value / Pow256(i) % 256
    decreases size
  {
    if i > 0 {
      DigitAt(value / 256, size - 1, i - 1);
      DivTwice(value, Pow256(i - 1));
    }
  }

  lemma DivTwice(value: nat, p: nat)
    requires 1 <= p
    ensures value / 256 / p == value / (256 * p)
  {
    DigitSplitDiv(value, p, value / 256 / p, value / 256 % p);
  }

  lemma DigitSplitDiv(value: nat, p: nat, q: nat, r: nat)
    requires 1 <= p && r < p && value / 256 == p * q + r
    ensures value / (256 * p) == q
  {
    assert value == (256 * p) * q + (256 * r + value % 256);
    DivUnique(value, 256 * p, q, 256 * r + value % 256);
  }

  /** Reading it back: the same modulo 256^size, negative numbers for the lower-case options only. */
  lemma UnpackedInteger(order: string, body: string, size: nat, v: int, native: Endian, more: seq<byte>)
    requires IsOrder(order) && IntegerOption(body, size) && 1 <= size <= 8 && Convertible(v)
    ensures
      var items := Items(order + body, DefaultHeader(native));
      var packed := Pack(items, Lp64(native), [Num(v)], []);
      var low := v % Pow256(size);
      var read := if IsSigned(body[0]) && low >= Pow256(size) / 2 then low - Pow256(size) else low;
      packed.Ok? && Unpack(items, Lp64(native), packed.value + more, 0, []) == Ok(([Num(read)], size + 1))
  {
    var h, signed := HeaderAfter(order, native), IsSigned(body[0]);
    var field := Bytes(ToUnsigned(v), h.endian, size);
    OneInteger(order, body, size, v, native);
    IntegerRead(body, size, h);
    OneUnpacked(order, body, Integer(signed), size, native, field + more);
    ReadAgain(v, size, h, signed, native, more);
  }

  lemma ReadAgain(v: int, size: nat, h: Header, signed: bool, native: Endian, more: seq<byte>)
    requires 1 <= size <= 8
    ensures
      var low := v % Pow256(size);
      var read := if signed && low >= Pow256(size) / 2 then low - Pow256(size) else low;
      Decode(Integer(signed), size, h, Lp64(native), Bytes(ToUnsigned(v), h.endian, size) + more, 0, [])
      == Ok(([Num(read)], size))
  {
    FieldRead(Bytes(ToUnsigned(v), h.endian, size), more, h, signed, native);
    IntegerRoundTrip(v, h.endian, signed, size);
  }

  lemma OneUnpacked(order: string, body: string, k: Kind, size: nat, native: Endian, data: seq<byte>)
    requires IsOrder(order) && body != "" && !k.Control? && size <= |data|
    requires
      var h := HeaderAfter(order, native);
      Next(body, h) == (Field(k, size, h), "", h)
    ensures Unpack(Items(order + body, DefaultHeader(native)), Lp64(native), data, 0, []) ==
      match Decode(k, size, HeaderAfter(order, native), Lp64(native), data, 0, [])
      case Err(e) => Err(e)
      case Ok((stack, pos)) => Ok((stack, pos + 1))
  {
    OrderFirst(order, body, native, Lp64(native), []);
    OneField(body, HeaderAfter(order, native), k, size, Lp64(native), data);
  }

  lemma FieldRead(field: seq<byte>, more: seq<byte>, h: Header, signed: bool, native: Endian)
    requires 1 <= |field| <= 8
    ensures Decode(Integer(signed), |field|, h, Lp64(native), field + more, 0, [])
         == Ok(([Num(ReadInt(field, h.endian, signed))], |field|))
  {
    var x := ReadInt(field, h.endian, signed);
    assert (field + more)[0..|field|] == field && [] + [Num(x)] == [Num(x)];
  }

  /** A single option unpacks what the data's first bytes are decoded as. */
  lemma OneField(body: string, h: Header, k: Kind, size: nat, m: Machine, data: seq<byte>)
    requires body != "" && h.align == 1 && !k.Control? && Next(body, h) == (Field(k, size, h), "", h) && size <= |data|
    ensures Unpack(Items(body, h), m, data, 0, []) ==
      match Decode(k, size, h, m, data, 0, [])
      case Err(e) => Err(e)
      case Ok((stack, pos)) => Ok((stack, pos + 1))
  {
    assert Items(body, h) == [Field(k, size, h)] + [];
    assert [Field(k, size, h)][1..] == [];
    NoPadding(0, h, k, size);
  }

  /** Strings are packed as they are: `s` whole with a zero behind, `cn` its first n bytes. */
  lemma PackedString(order: string, s: seq<byte>, native: Endian)
    requires IsOrder(order)
    ensures Pack(Items(order + "s", DefaultHeader(native)), Lp64(native), [Str(s)], []) == Ok(s + [0])
  {
    var h := HeaderAfter(order, native);
    OrderFirst(order, "s", native, Lp64(native), [Str(s)]);
    OneOption("s", h, CString, 0, Lp64(native), [Str(s)]);
    assert s[..|s|] == s;
  }

  predicate CharsOption(body: string, n: nat) {
    (body == "c" && n == 1) || (body != "" && body[0] == 'c' && IsNumber(body[1..]) && Decimal(body[1..]) == n)
  }

  lemma PackedChars(order: string, body: string, n: nat, s: seq<byte>, native: Endian)
    requires IsOrder(order) && CharsOption(body, n)
    ensures Pack(Items(order + body, DefaultHeader(native)), Lp64(native), [Str(s)], [])
         == if n > |s| then Err(StringTooShort) else Ok(if n == 0 then s else s[..n])
  {
    CharsRead(body, n, HeaderAfter(order, native));
    OnePacked(order, body, Chars, n, native, [Str(s)]);
    EncodedChars(n, s, HeaderAfter(order, native), Lp64(native));
  }

  lemma CharsRead(body: string, n: nat, h: Header)
    requires CharsOption(body, n)
    ensures Next(body, h) == (Field(Chars, n, h), "", h)
  {
    assert body[1..] + "" == body[1..];
    if body != "c" {
      NumberRead(body[1..], "", 1);
    }
  }

  lemma EncodedChars(n: nat, s: seq<byte>, h: Header, m: Machine)
    ensures Encode(Chars, n, h, m, [Str(s)])
         == if n > |s| then Err(StringTooShort) else Ok(if n == 0 then s else s[..n])
  {
    assert s[..|s|] + [] == s && (n <= |s| ==> s[..n] + [] == s[..n]);
  }

  lemma PackedPad(order: string, native: Endian, args: seq<Value>)
    requires IsOrder(order)
    ensures Pack(Items(order + "x", DefaultHeader(native)), Lp64(native), args, []) == Ok([0])
  {
    OrderFirst(order, "x", native, Lp64(native), args);
    OneOption("x", HeaderAfter(order, native), Pad, 1, Lp64(native), args);
  }

  /** A float's bytes in memory, turned round if the order asked for is not the machine's. */
  lemma PackedFloat(order: string, letter: char, bytes: seq<byte>, native: Endian)
    requires IsOrder(order) && ((letter == 'f' && |bytes| == 4) || (letter == 'd' && |bytes| == 8))
    ensures
      var packed := Pack(Items(order + [letter], DefaultHeader(native)), Lp64(native), [Flt(bytes)], []);
      && packed.Ok? && |packed.value| == |bytes|
      && forall i :: 0 <= i < |bytes| ==>
           packed.value[i] == bytes[if LowFirst(order, native) == native.Little? then i else |bytes| - 1 - i]
  {
    var h := HeaderAfter(order, native);
    OrderFirst(order, [letter], native, Lp64(native), [Flt(bytes)]);
    OneOption([letter], h, Float, |bytes|, Lp64(native), [Flt(bytes)]);
    forall i | 0 <= i < |bytes|
      ensures Reverse(bytes)[i] == bytes[|bytes| - 1 - i]
    {
      ReverseAt(bytes, i);
    }
  }

  // -------------------------------------------------------------------------
  // Alignment.

  /** `!n` puts the alignment n in force if it is a power of two and is refused otherwise; `!` alone asks for 8. */
  lemma AlignmentAsked(digits: string, body: string, h: Header)
    requires AllDigits(digits) && (body == "" || !IsDigit(body[0]))
    ensures
      var n := if digits == "" then 8 else Decimal(digits);
      var items := Items("!" + digits + body, h);
      if IsPower2(n)
        then items == [Field(Control, 0, h)] + Items(body, Header(h.endian, n))
      else items != [] && items[0] == Refused(AlignNotPowerOf2, false)
  {
    var fmt := "!" + digits + body;
    assert fmt[1..] == digits + body && fmt[0] == '!';
    if digits == "" {
      assert digits + body == body;
      AlignmentRead(fmt, body, 8, h);
    } else {
      NumberRead(digits, body, MAXALIGN);
      AlignmentRead(fmt, body, Decimal(digits), h);
    }
  }

  lemma AlignmentRead(fmt: string, body: string, n: nat, h: Header)
    requires fmt != "" && fmt[0] == '!' && GetNum(fmt[1..], MAXALIGN) == (n, body)
    ensures Items(fmt, h) != []
    ensures if IsPower2(n) then Items(fmt, h) == [Field(Control, 0, h)] + Items(body, Header(h.endian, n))
            else Items(fmt, h)[0] == Refused(AlignNotPowerOf2, false)
  {
  }

  /** Before an item stand as many zeros as it takes to reach a multiple of its size or, if that is less, of the
      alignment; before characters and options without a size none. */
  lemma PaddedWithZeros(items: seq<Item>, m: Machine, args: seq<Value>, out: seq<byte>, packed: seq<byte>)
    returns (pad: nat, bytes: seq<byte>)
    requires items != [] && items[0].Field? && Pack(items, m, args, out) == Ok(packed)
    ensures Encode(items[0].k, items[0].size, items[0].h, m, args) == Ok(bytes) && out + Zeros(pad) + bytes <= packed
    ensures items[0].k.Chars? || items[0].size == 0 ==> pad == 0
    ensures
      var q := if items[0].size > items[0].h.align then items[0].h.align else items[0].size;
      !items[0].k.Chars? && IsPower2(q) ==> pad < q && (|out| + pad) % q == 0
  {
    var Field(k, size, h) := items[0];
    var q := if size > h.align then h.align else size;
    pad := ToAlign(|out|, h, k, size);
    bytes := Encode(k, size, h, m, args).value;
    StructRoundTrip.PackAppends(items[1..], m, ArgsAfter(k, args), out + Zeros(pad) + bytes);
    if !k.Chars? && IsPower2(q) {
      PowerOf2Pads(|out|, q);
    }
  }

  lemma ZerosAreZero(n: nat, i: nat)
    requires i < n
    ensures Zeros(n)[i] == 0
  {
  }

  // -------------------------------------------------------------------------
  // What is accepted.

  /** The next argument is what the item needs. */
  predicate Acceptable(item: Item, args: seq<Value>) {
    && item.Field?
    && match item.k
       case Integer(_) => args != [] && args[0].Num? && -0x8000_0000_0000_0000 <= args[0].n < TWO64
       case Float => args != [] && args[0].Flt? && |args[0].bytes| == item.size
       case Chars => args != [] && args[0].Str? && item.size <= |args[0].s|
       case CString => args != [] && args[0].Str? && item.size <= |args[0].s|
       case Pad => true
       case Control => true
  }

  predicate AllAcceptable(items: seq<Item>, args: seq<Value>) {
    items == [] || (Acceptable(items[0], args)
                    && AllAcceptable(items[1..], if items[0].k.Pad? || items[0].k.Control? then args else args[1..]))
  }

  /** Pack accepts its arguments if and only if each is what its item needs. */
  lemma {:induction false} PacksIff(items: seq<Item>, native: Endian, args: seq<Value>, out: seq<byte>)
    ensures Pack(items, Lp64(native), args, out).Ok? <==> AllAcceptable(items, args)
    decreases |items|
  {
    if items != [] && Acceptable(items[0], args) {
      var Field(k, size, h) := items[0];
      var bytes := Encode(k, size, h, Lp64(native), args).value;
      PacksIff(items[1..], native, ArgsAfter(k, args), out + Zeros(ToAlign(|out|, h, k, size)) + bytes);
    }
  }

  /** Letters that are no option at all are refused. */
  lemma UnknownRefused(order: string, letter: char, native: Endian, args: seq<Value>)
    requires IsOrder(order)
    requires LetterSize(letter) == 0 && letter !in {'i', 'I', 'f', 'd', 'x', 'c', 's', ' ', '<', '>', '!'}
    ensures Pack(Items(order + [letter], DefaultHeader(native)), Lp64(native), args, []) == Err(InvalidOption)
  {
    var h := HeaderAfter(order, native);
    OrderFirst(order, [letter], native, Lp64(native), args);
    assert Items([letter], h)[0] == Next([letter], h).0;
  }

  lemma WideRefused(order: string, body: string, native: Endian, args: seq<Value>)
    requires IsOrder(order) && body != "" && (body[0] == 'i' || body[0] == 'I')
    requires IsNumber(body[1..]) && Decimal(body[1..]) > 32
    ensures Pack(Items(order + body, DefaultHeader(native)), Lp64(native), args, []) == Err(SizeTooLarge)
  {
    var h := HeaderAfter(order, native);
    assert body[1..] + "" == body[1..];
    NumberRead(body[1..], "", INT);
    OrderFirst(order, body, native, Lp64(native), args);
    assert Items(body, h)[0] == Next(body, h).0;
  }

  /** What has a fixed size is unpacked if and only if there is enough data, and no signed field is too wide. */
  lemma {:induction false} UnpacksIff(items: seq<Item>, native: Endian, data: seq<byte>, pos: nat, stack: seq<Value>,
                                      n: nat)
    requires Size(items, pos) == Ok(n) && (forall i :: 0 <= i < |items| ==> items[i].Field?) && WellSized(items)
    ensures pos <= n
    ensures
      var r := Unpack(items, Lp64(native), data, pos, stack);
      if items == [] then r == Ok((stack, pos + 1))
      else if n > |data| then r.Err?
      else r.Ok? <==> forall i :: 0 <= i < |items| && items[i].k == Integer(true) ==> 1 <= items[i].size <= 8
    decreases |items|
  {
    if items != [] {
      var Field(k, size, h) := items[0];
      var at := Aligned(pos, items[0]);
      assert WellSized(items[1..]) by { assert forall i :: 0 <= i < |items[1..]| ==> items[1..][i] == items[i + 1]; }
      if at + size <= |data| && Decode(k, size, h, Lp64(native), data, at, stack).Ok? {
        var (stack', pos') := Decode(k, size, h, Lp64(native), data, at, stack).value;
        UnpacksIff(items[1..], native, data, pos', stack', n);
        assert forall i :: 1 <= i < |items| ==> items[i] == items[1..][i - 1];
      } else {
        UnpacksIff(items[1..], native, data, at + size, stack, n);
      }
    }
  }

  // -------------------------------------------------------------------------
  // Single options that fail.

  lemma WrongArgument(order: string, body: string, size: nat, native: Endian, args: seq<Value>)
    requires IsOrder(order) && IntegerOption(body, size) && (args == [] || !args[0].Num?)
    ensures Pack(Items(order + body, DefaultHeader(native)), Lp64(native), args, []) == Err(BadArgument)
  {
    IntegerRead(body, size, HeaderAfter(order, native));
    OnePacked(order, body, Integer(IsSigned(body[0])), size, native, args);
  }

  lemma WrongString(order: string, body: string, n: nat, native: Endian, args: seq<Value>)
    requires IsOrder(order) && CharsOption(body, n) && (args == [] || !args[0].Str?)
    ensures Pack(Items(order + body, DefaultHeader(native)), Lp64(native), args, []) == Err(BadArgument)
  {
    CharsRead(body, n, HeaderAfter(order, native));
    OnePacked(order, body, Chars, n, native, args);
  }

  /** Data that ends too soon, a string without its zero, and `c0` without a number before it. */
  lemma ShortData(order: string, body: string, size: nat, native: Endian, data: seq<byte>)
    requires IsOrder(order) && IntegerOption(body, size) && |data| < size
    ensures Unpack(Items(order + body, DefaultHeader(native)), Lp64(native), data, 0, []) == Err(DataTooShort)
  {
    var h, k := HeaderAfter(order, native), Integer(IsSigned(body[0]));
    OrderFirst(order, body, native, Lp64(native), []);
    IntegerRead(body, size, h);
    assert Items(body, h)[0] == Field(k, size, h);
  }

  lemma UnfinishedString(order: string, native: Endian, data: seq<byte>)
    requires IsOrder(order) && 0 !in data
    ensures Unpack(Items(order + "s", DefaultHeader(native)), Lp64(native), data, 0, []) == Err(Unfinished)
  {
    OneUnpacked(order, "s", CString, 0, native, data);
    assert data[0..] == data;
  }

  lemma NoSizeBefore(order: string, body: string, native: Endian, data: seq<byte>)
    requires IsOrder(order) && CharsOption(body, 0)
    ensures Unpack(Items(order + body, DefaultHeader(native)), Lp64(native), data, 0, []) == Err(NeedsSize)
  {
    CharsRead(body, 0, HeaderAfter(order, native));
    OneUnpacked(order, body, Chars, 0, native, data);
  }

  /** Unlike pack and unpack, size passes over letters and digits that are no option. */
  lemma UnknownSized(letter: char, h: Header)
    requires LetterSize(letter) == 0 && letter !in {'i', 'I', 'f', 'd', 'x', 'c', 's', ' ', '<', '>', '!'}
    ensures Size(Items([letter], h), 0)
         == if '0' <= letter <= '9' || 'a' <= letter <= 'z' || 'A' <= letter <= 'Z' then Ok(0) else Err(InvalidOption)
  {
    assert Items([letter], h) == [Next([letter], h).0] + [];
    assert [Next([letter], h).0][1..] == [];
  }
}
