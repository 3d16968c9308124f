/** pack, unpack and size (struct.c). */
module StructPack {
  import opened Basics
  import opened StructInt
  import opened StructFormat

  /** Lua values: an integral number, a string, and a float or double as its bytes in memory. */
  datatype Value = Num(n: int) | Str(s: seq<byte>) | Flt(bytes: seq<byte>)

  /** What the machine contributes: its byte order, and integers as bytes and back. */
  datatype Machine = Machine(native: Endian, put: (int, Endian, nat) -> seq<byte>,
                             get: (seq<byte>, Endian, bool) -> int)

  /** putinteger and getinteger on 64-bit numbers. */
  function Lp64(native: Endian): Machine {
    Machine(native,
            (n, endian, size) => Bytes(ToUnsigned(n), endian, size),
            (field, endian, signed) => if signed && !(1 <= |field| <= 8) then 0 else ReadInt(field, endian, signed))
  }

  function Zeros(n: nat): (s: seq<byte>)
    ensures |s| == n
  {
    seq(n, _ => 0)
  }

  /** A double that converts to 64 bits without undefined behaviour. */
  predicate Convertible(n: int) { -(TWO64 / 2) <= n < TWO64 }

  /** The bytes one option adds for its argument, after the padding. */
  function Encode(k: Kind, size: nat, h: Header, m: Machine, args: seq<Value>): Result<seq<byte>> {
    match k
    case Integer(_) =>
      if args == [] || !args[0].Num? then Err(BadArgument)
      else if !Convertible(args[0].n) then Err(Undefined)
      else Ok(m.put(args[0].n, h.endian, size))
    case Pad => Ok([0])
    case Float =>
      if args == [] || !args[0].Flt? || |args[0].bytes| != size then Err(BadArgument)
      else Ok(if h.endian == m.native then args[0].bytes else Reverse(args[0].bytes))
    case Chars => EncodeString(size, args, [])
    case CString => EncodeString(size, args, [0])
    case Control => Ok([])
  }

  /** With size 0 the whole string, otherwise its first `size` bytes. */
  function EncodeString(size: nat, args: seq<Value>, end: seq<byte>): Result<seq<byte>> {
    if args == [] || !args[0].Str? then Err(BadArgument)
    else
      var n := if size == 0 then |args[0].s| else size;
      if |args[0].s| < n then Err(StringTooShort) else Ok(args[0].s[..n] + end)
  }

  /** The arguments that are left after an option. */
  function ArgsAfter(k: Kind, args: seq<Value>): seq<Value> {
    if k.TakesArgument() && args != [] then args[1..] else args
  }

  function Aligned(len: nat, item: Item): nat
    requires item.Field?
  {
    len + ToAlign(len, item.h, item.k, item.size)
  }

  /** The loop of b_pack. */
  function Pack(items: seq<Item>, m: Machine, args: seq<Value>, out: seq<byte>): Result<seq<byte>>
    decreases |items|
  {
    if items == [] then Ok(out)
    else match items[0]
      case BadSize(e) => Err(e)
      case Refused(e, _) => Err(e)
      case Field(k, size, h) =>
        match Encode(k, size, h, m, args)
        case Err(e) => Err(e)
        case Ok(bytes) =>
          Pack(items[1..], m, ArgsAfter(k, args), out + Zeros(ToAlign(|out|, h, k, size)) + bytes)
  }

  /** memchr */
  function FindZero(data: seq<byte>, pos: nat): (r: Result<nat>)
    ensures r.Ok? ==> pos <= r.value < |data| && data[r.value] == 0 && 0 !in data[pos..r.value]
    ensures r.Err? ==> r.error == Unfinished && (pos <= |data| ==> 0 !in data[pos..])
    decreases |data| - pos
  {
    if pos >= |data| then Err(Unfinished)
    else if data[pos] == 0 then Ok(pos)
    else
      var r := FindZero(data, pos + 1);
      assert r.Ok? ==> data[pos..r.value] == [data[pos]] + data[pos + 1..r.value];
      assert data[pos..] == [data[pos]] + data[pos + 1..];
      r
  }

  /** The value stack and position after one option, whose data starts at `pos`. */
  function Decode(k: Kind, size: nat, h: Header, m: Machine, data: seq<byte>, pos: nat, stack: seq<Value>)
    : Result<(seq<Value>, nat)>
    requires pos + size <= |data|
  {
    match k
    case Integer(signed) =>
      if signed && !(1 <= size <= 8) then Err(Undefined)
      else Ok((stack + [Num(m.get(data[pos..pos + size], h.endian, signed))], pos + size))
    case Float =>
      var field := data[pos..pos + size];
      Ok((stack + [Flt(if h.endian == m.native then field else Reverse(field))], pos + size))
    case Chars =>
      if size > 0 then Ok((stack + [Str(data[pos..pos + size])], pos + size))
      else if stack == [] || !stack[|stack| - 1].Num? then Err(NeedsSize)
      else
        var n := stack[|stack| - 1].n;
        if n < 0 then Err(Undefined)
        else if pos + n > |data| then Err(DataTooShort)
        else Ok((stack[..|stack| - 1] + [Str(data[pos..pos + n])], pos + n))
    case CString =>
      (match FindZero(data, pos)
       case Err(e) => Err(e)
       case Ok(e) => Ok((stack + [Str(data[pos..e])], e + 1)))
    case _ => Ok((stack, pos + size))
  }

  /** The loop of b_unpack. */
  function Unpack(items: seq<Item>, m: Machine, data: seq<byte>, pos: nat, stack: seq<Value>)
    : Result<(seq<Value>, nat)>
    decreases |items|
  {
    if items == [] then Ok((stack, pos + 1))
    else match items[0]
      case BadSize(e) => Err(e)
      case Refused(e, _) => if pos > |data| then Err(DataTooShort) else Err(e)
      case Field(k, size, h) =>
        var at := Aligned(pos, items[0]);
        if at + size > |data| then Err(DataTooShort)
        else match Decode(k, size, h, m, data, at, stack)
          case Err(e) => Err(e)
          case Ok((stack', pos')) => Unpack(items[1..], m, data, pos', stack')
  }

  /** The loop of b_size. */
  function Size(items: seq<Item>, pos: nat): Result<nat>
    decreases |items|
  {
    if items == [] then Ok(pos)
    else match items[0]
      case BadSize(e) => Err(e)
      case Refused(e, alnum) => if alnum then Size(items[1..], pos) else Err(e)
      case Field(k, size, h) =>
        if k.CString? || (k.Chars? && size == 0) then Err(NoFixedSize)
        else Size(items[1..], Aligned(pos, items[0]) + size)
  }

  function DefaultHeader(native: Endian): Header { Header(native, 1) }

  // -------------------------------------------------------------------------
  // The library functions themselves.

  method ReadNumber(fmt: string, df: nat) returns (a: nat, rest: string)
    ensures (a, rest) == GetNum(fmt, df)
  {
    rest := fmt;
    if rest == [] || !IsDigit(rest[0]) {
      return df, rest;
    }
    a := 0;
    while rest != [] && IsDigit(rest[0])
      invariant NumPrefix(rest, a) == NumPrefix(fmt, 0)
      decreases |rest|
    {
      a := a * 10 + (rest[0] as int - '0' as int);
      rest := rest[1..];
    }
  }

  method ReadSize(opt: char, fmt: string) returns (r: Result<(nat, string)>)
    ensures r == OptSize(opt, fmt)
  {
    match opt {
      case 'B' => return Ok((1, fmt));
      case 'b' => return Ok((1, fmt));
      case 'H' => return Ok((SHORT, fmt));
      case 'h' => return Ok((SHORT, fmt));
      case 'L' => return Ok((LONG, fmt));
      case 'l' => return Ok((LONG, fmt));
      case 'T' => return Ok((SIZE_T, fmt));
      case 'f' => return Ok((FLOAT, fmt));
      case 'd' => return Ok((DOUBLE, fmt));
      case 'x' => return Ok((1, fmt));
      case _ =>
    }
    if opt == 'c' {
      var n, rest := ReadNumber(fmt, 1);
      return Ok((n, rest));
    }
    if opt == 'i' || opt == 'I' {
      var sz, rest := ReadNumber(fmt, INT);
      return if sz > MAXINTSIZE then Err(SizeTooLarge) else Ok((sz, rest));
    }
    return Ok((0, fmt));
  }

  method ReadControl(opt: char, fmt: string, h: Header) returns (r: Result<(string, Header)>)
    ensures r == ControlOptions(opt, fmt, h)
  {
    match opt {
      case ' ' => return Ok((fmt, h));
      case '>' => return Ok((fmt, h.(endian := Big)));
      case '<' => return Ok((fmt, h.(endian := Little)));
      case '!' =>
        var a, rest := ReadNumber(fmt, MAXALIGN);
        return if !IsPower2(a) then Err(AlignNotPowerOf2) else Ok((rest, h.(align := a)));
      case _ => return Err(InvalidOption);
    }
  }

  /** The next option of the format, its size, and the header after it. */
  method ReadNext(fmt: string, h: Header) returns (item: Item, rest: string, h': Header)
    requires fmt != []
    ensures (item, rest, h') == Next(fmt, h)
  {
    var opt := fmt[0];
    var sized := ReadSize(opt, fmt[1..]);
    if sized.Err? {
      return BadSize(sized.error), "", h;
    }
    var size;
    size, rest := sized.value.0, sized.value.1;
    if !KindOf(opt).Control? {
      return Field(KindOf(opt), size, h), rest, h;
    }
    var control := ReadControl(opt, rest, h);
    if control.Err? {
      return Refused(control.error, IsAlnum(opt)), rest, h;
    }
    return Field(Control, size, h), control.value.0, control.value.1;
  }

  method NativeOrder(bytes: seq<byte>, endian: Endian, native: Endian) returns (r: seq<byte>)
    ensures r == if endian == native then bytes else Reverse(bytes)
  {
    var b := new byte[|bytes|](i requires 0 <= i < |bytes| => bytes[i]);
    assert b[..] == bytes;
    CorrectBytes(b, endian, native);
    r := b[..];
  }

  /** The body of the switch in b_pack. */
  method EncodeArgument(k: Kind, size: nat, h: Header, native: Endian, args: seq<Value>)
    returns (r: Result<seq<byte>>)
    ensures r == Encode(k, size, h, Lp64(native), args)
  {
    match k {
      case Integer(_) =>
        if args == [] || !args[0].Num? {
          return Err(BadArgument);
        }
        if !Convertible(args[0].n) {
          return Err(Undefined);
        }
        var bytes := PutInteger(args[0].n, h.endian, size);
        return Ok(bytes);
      case Float =>
        if args == [] || !args[0].Flt? || |args[0].bytes| != size {
          return Err(BadArgument);
        }
        var bytes := NativeOrder(args[0].bytes, h.endian, native);
        return Ok(bytes);
      case Pad => return Ok([0]);
      case Chars => r := EncodeText(size, args, []);
      case CString => r := EncodeText(size, args, [0]);
      case Control => return Ok([]);
    }
  }

  /** `c` and `s`: the string, or as much of it as asked for, and for `s` a zero at the end. */
  method EncodeText(size: nat, args: seq<Value>, end: seq<byte>) returns (r: Result<seq<byte>>)
    ensures r == EncodeString(size, args, end)
  {
    if args == [] || !args[0].Str? {
      return Err(BadArgument);
    }
    var s, n := args[0].s, size;
    if n == 0 {
      n := |s|;
    }
    if |s| < n {
      return Err(StringTooShort);
    }
    return Ok(s[..n] + end);
  }

  method BPack(format: string, native: Endian, arguments: seq<Value>) returns (r: Result<seq<byte>>)
    ensures r == Pack(Items(format, DefaultHeader(native)), Lp64(native), arguments, [])
  {
    var fmt, h, args, b := format, DefaultHeader(native), arguments, [];
    while fmt != []
      invariant Pack(Items(fmt, h), Lp64(native), args, b)
             == Pack(Items(format, DefaultHeader(native)), Lp64(native), arguments, [])
      decreases |fmt|
    {
      var item, rest, h' := ReadNext(fmt, h);
      assert Items(fmt, h)[1..] == Items(rest, h');
      match item {
        case BadSize(e) => return Err(e);
        case Refused(e, _) => return Err(e);
        case Field(k, size, _) =>
          var toalign := ToAlign(|b|, item.h, k, size);
          var encoded := EncodeArgument(k, size, item.h, native, args);
          if encoded.Err? {
            return encoded;
          }
          b := b + Zeros(toalign) + encoded.value;
          args := ArgsAfter(k, args);
      }
      fmt, h := rest, h';
    }
    return Ok(b);
  }

  /** The body of the switch in b_unpack. */
  method DecodeField(k: Kind, size: nat, h: Header, native: Endian, data: seq<byte>, pos: nat, stack: seq<Value>)
    returns (r: Result<(seq<Value>, nat)>)
    requires pos + size <= |data|
    ensures r == Decode(k, size, h, Lp64(native), data, pos, stack)
  {
    match k {
      case Integer(signed) =>
        if signed && !(1 <= size <= 8) {
          return Err(Undefined);
        }
        var n := GetInteger(data[pos..pos + size], h.endian, signed);
        return Ok((stack + [Num(n)], pos + size));
      case Float =>
        var bytes := NativeOrder(data[pos..pos + size], h.endian, native);
        return Ok((stack + [Flt(bytes)], pos + size));
      case Chars => r := DecodeChars(size, data, pos, stack);
      case CString =>
        var e := MemChr(data, pos);
        if e.Err? {
          return Err(e.error);
        }
        return Ok((stack + [Str(data[pos..e.value])], e.value + 1));
      case Pad => return Ok((stack, pos + size));
      case Control => return Ok((stack, pos + size));
    }
  }

  /** `c`: with size 0 the number just read is popped and gives the size. */
  method DecodeChars(size: nat, data: seq<byte>, pos: nat, stack: seq<Value>) returns (r: Result<(seq<Value>, nat)>)
    requires pos + size <= |data|
    ensures forall h, m :: r == Decode(Chars, size, h, m, data, pos, stack)
  {
    var n, stack' := size, stack;
    if n == 0 {
      if stack == [] || !stack[|stack| - 1].Num? {
        return Err(NeedsSize);
      }
      if stack[|stack| - 1].n < 0 {
        return Err(Undefined);
      }
      n, stack' := stack[|stack| - 1].n, stack[..|stack| - 1];
      if pos + n > |data| {
        return Err(DataTooShort);
      }
    }
    return Ok((stack' + [Str(data[pos..pos + n])], pos + n));
  }

  /** The first zero from `pos` on. */
  method MemChr(data: seq<byte>, pos: nat) returns (r: Result<nat>)
    ensures r == FindZero(data, pos)
  {
    var e := pos;
    while e < |data|
      invariant pos <= e && FindZero(data, e) == FindZero(data, pos)
    {
      if data[e] == 0 {
        return Ok(e);
      }
      e := e + 1;
    }
    return Err(Unfinished);
  }

  method BUnpack(format: string, native: Endian, data: seq<byte>, start: nat) returns (r: Result<(seq<Value>, nat)>)
    ensures r == Unpack(Items(format, DefaultHeader(native)), Lp64(native), data, start, [])
  {
    var fmt, h, stack := format, DefaultHeader(native), [];
    var pos: nat := start;
    while fmt != []
      invariant Unpack(Items(fmt, h), Lp64(native), data, pos, stack)
             == Unpack(Items(format, DefaultHeader(native)), Lp64(native), data, start, [])
      decreases |fmt|
    {
      var item, rest, h' := ReadNext(fmt, h);
      assert Items(fmt, h)[1..] == Items(rest, h');
      match item {
        case BadSize(e) => return Err(e);
        case Refused(e, _) => return if pos > |data| then Err(DataTooShort) else Err(e);
        case Field(k, size, _) =>
          var at := Aligned(pos, item);
          if at + size > |data| {
            return Err(DataTooShort);
          }
          var decoded := DecodeField(k, size, item.h, native, data, at, stack);
          if decoded.Err? {
            return Err(decoded.error);
          }
          stack, pos := decoded.value.0, decoded.value.1;
      }
      fmt, h := rest, h';
    }
    return Ok((stack, pos + 1));
  }

  method BSize(format: string, native: Endian) returns (r: Result<nat>)
    ensures r == Size(Items(format, DefaultHeader(native)), 0)
  {
    var fmt, h := format, DefaultHeader(native);
    var pos: nat := 0;
    while fmt != []
      invariant Size(Items(fmt, h), pos) == Size(Items(format, DefaultHeader(native)), 0)
      decreases |fmt|
    {
      var item, rest, h' := ReadNext(fmt, h);
      SizeOne(fmt, h, pos);
      var next := SizeItem(item, pos);
      if next.Err? {
        return Err(next.error);
      }
      fmt, h, pos := rest, h', next.value;
    }
    return Ok(pos);
  }

  /** One turn of size's loop: the position after an option. */
  method SizeItem(item: Item, pos: nat) returns (r: Result<nat>)
    ensures r == Size([item], pos)
  {
    match item {
      case BadSize(e) => return Err(e);
      case Refused(e, alnum) => return if alnum then Ok(pos) else Err(e);
      case Field(k, size, _) =>
        if k.CString? || (k.Chars? && size == 0) {
          return Err(NoFixedSize);
        }
        return Ok(Aligned(pos, item) + size);
    }
  }

  lemma SizeOne(fmt: string, h: Header, pos: nat)
    requires fmt != []
    ensures
      var (item, rest, h') := Next(fmt, h);
      Size(Items(fmt, h), pos) == match Size([item], pos)
                                  case Err(e) => Err(e)
                                  case Ok(pos') => Size(Items(rest, h'), pos')
  {
    FirstItem(fmt, h);
    SizeHead(Items(fmt, h), pos);
  }

  lemma FirstItem(fmt: string, h: Header)
    requires fmt != []
    ensures
      var (item, rest, h') := Next(fmt, h);
      Items(fmt, h) != [] && Items(fmt, h)[0] == item && Items(fmt, h)[1..] == Items(rest, h')
  {
  }

  lemma SizeHead(items: seq<Item>, pos: nat)
    requires items != []
    ensures Size(items, pos) == match Size([items[0]], pos)
                                case Err(e) => Err(e)
                                case Ok(pos') => Size(items[1..], pos')
  {
    assert [items[0]][1..] == [];
  }
}
