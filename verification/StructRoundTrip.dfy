/** What pack, unpack and size have to do with each other. */
module StructRoundTrip {
  import opened Basics
  import opened StructInt
  import opened StructFormat
  import opened StructPack

  /** What one option leaves on the stack of results when its argument comes back. */
  function FieldResult(k: Kind, size: nat, args: seq<Value>, acc: seq<Value>): seq<Value> {
    if !k.TakesArgument() || args == [] then acc
    else if k.Chars? && size == 0 then (if acc == [] then [] else acc[..|acc| - 1]) + [args[0]]
    else if k.Chars? && args[0].Str? && size <= |args[0].s| then acc + [Str(args[0].s[..size])]
    else acc + [args[0]]
  }

  /** The argument can come back: an integer in the range of its field, a string for `s` without NUL,
      a string for `c0` whose length is the number just read. */
  predicate FieldFits(k: Kind, size: nat, args: seq<Value>, acc: seq<Value>) {
    args != [] ==>
      match k
      case Integer(signed) => args[0].Num? ==> InRange(args[0].n, signed, size)
      case CString => args[0].Str? ==> 0 !in args[0].s
      case Chars => size == 0 && args[0].Str? ==> acc != [] && acc[|acc| - 1] == Num(|args[0].s|)
      case _ => true
  }

  /** The encoded argument stands in the data at `at`. */
  ghost predicate EncodedAt(k: Kind, size: nat, h: Header, m: Machine, args: seq<Value>, data: seq<byte>, at: nat) {
    Encode(k, size, h, m, args).Ok? &&
    var bytes := Encode(k, size, h, m, args).value;
    at + |bytes| <= |data| && data[at..at + |bytes|] == bytes
  }

  /** Decoding undoes encoding. */
  ghost predicate Decodes(k: Kind, size: nat, h: Header, m: Machine, args: seq<Value>, data: seq<byte>,
                          at: nat, acc: seq<Value>)
    requires Encode(k, size, h, m, args).Ok?
  {
    && at + size <= |data|
    && Decode(k, size, h, m, data, at, acc)
       == Ok((FieldResult(k, size, args, acc), at + |Encode(k, size, h, m, args).value|))
  }

  /** Integers take the bytes of their field, and those in its range come back. */
  ghost predicate Sound(m: Machine) {
    && (forall n, endian, size :: |m.put(n, endian, size)| == size)
    && (forall n, endian, signed, size :: InRange(n, signed, size) ==>
          m.get(m.put(n, endian, size), endian, signed) == n)
  }

  lemma Lp64IsSound(native: Endian)
    ensures Sound(Lp64(native))
  {
    var m := Lp64(native);
    forall n, endian, signed, size: nat | InRange(n, signed, size)
      ensures m.get(m.put(n, endian, size), endian, signed) == n
    {
      InRangeComesBack(n, endian, signed, size);
    }
  }

  lemma DecodesNumber(k: Kind, size: nat, h: Header, m: Machine, args: seq<Value>, data: seq<byte>, at: nat,
                      acc: seq<Value>)
    requires Sound(m) && (k.Integer? || k.Float?)
    requires EncodedAt(k, size, h, m, args, data, at) && FieldFits(k, size, args, acc)
    ensures Decodes(k, size, h, m, args, data, at, acc)
  {
    if k.Integer? {
      assert m.get(m.put(args[0].n, h.endian, size), h.endian, k.signed) == args[0].n;
    } else {
      ReverseTwice(args[0].bytes);
    }
  }

  lemma DecodesChars(size: nat, h: Header, m: Machine, args: seq<Value>, data: seq<byte>, at: nat, acc: seq<Value>)
    requires EncodedAt(Chars, size, h, m, args, data, at) && FieldFits(Chars, size, args, acc)
    ensures Decodes(Chars, size, h, m, args, data, at, acc)
  {
    var s := args[0].s;
    var n := if size == 0 then |s| else size;
    assert Encode(Chars, size, h, m, args).value == s[..n];
    assert s[..|s|] == s;
  }

  lemma DecodesCString(h: Header, m: Machine, args: seq<Value>, data: seq<byte>, at: nat, acc: seq<Value>)
    requires EncodedAt(CString, 0, h, m, args, data, at) && FieldFits(CString, 0, args, acc)
    ensures Decodes(CString, 0, h, m, args, data, at, acc)
  {
    var s := args[0].s;
    var bytes := s + [0];
    assert s[..|s|] == s && Encode(CString, 0, h, m, args).value == bytes;
    assert data[at..at + |s|] == bytes[..|s|] == s && data[at + |s|] == bytes[|s|];
    FindsFirstZero(data, at, at + |s|);
  }

  lemma DecodesField(k: Kind, size: nat, h: Header, m: Machine, args: seq<Value>, data: seq<byte>, at: nat,
                     acc: seq<Value>)
    requires Sound(m) && WellSized([Field(k, size, h)])
    requires EncodedAt(k, size, h, m, args, data, at) && FieldFits(k, size, args, acc)
    ensures Decodes(k, size, h, m, args, data, at, acc)
  {
    assert [Field(k, size, h)][0].k == k;
    match k
    case Integer(_) => DecodesNumber(k, size, h, m, args, data, at, acc);
    case Float => DecodesNumber(k, size, h, m, args, data, at, acc);
    case Chars => DecodesChars(size, h, m, args, data, at, acc);
    case CString => DecodesCString(h, m, args, data, at, acc);
    case _ =>
  }

  lemma {:induction false} FindsFirstZero(data: seq<byte>, pos: nat, e: nat)
    requires pos <= e < |data| && data[e] == 0 && 0 !in data[pos..e]
    ensures FindZero(data, pos) == Ok(e)
    decreases e - pos
  {
    if pos < e {
      assert data[pos..e] == [data[pos]] + data[pos + 1..e];
      FindsFirstZero(data, pos + 1, e);
    }
  }

  /** The results of all items. */
  function Results(items: seq<Item>, args: seq<Value>, acc: seq<Value>): seq<Value> {
    if items == [] || !items[0].Field? then acc
    else Results(items[1..], ArgsAfter(items[0].k, args), FieldResult(items[0].k, items[0].size, args, acc))
  }

  predicate Fits(items: seq<Item>, args: seq<Value>, acc: seq<Value>) {
    items != [] && items[0].Field? ==>
      && FieldFits(items[0].k, items[0].size, args, acc)
      && Fits(items[1..], ArgsAfter(items[0].k, args), FieldResult(items[0].k, items[0].size, args, acc))
  }

  /** Packing only ever appends. */
  lemma {:induction false} PackAppends(items: seq<Item>, m: Machine, args: seq<Value>, out: seq<byte>)
    requires Pack(items, m, args, out).Ok?
    ensures out <= Pack(items, m, args, out).value
    decreases |items|
  {
    if items != [] {
      var Field(k, size, h) := items[0];
      var bytes := Encode(k, size, h, m, args).value;
      PackAppends(items[1..], m, ArgsAfter(k, args), out + Zeros(ToAlign(|out|, h, k, size)) + bytes);
    }
  }

  lemma StandsAt(before: seq<byte>, bytes: seq<byte>, packed: seq<byte>, more: seq<byte>)
    requires before + bytes <= packed
    ensures |before| + |bytes| <= |packed + more|
    ensures (packed + more)[|before|..|before| + |bytes|] == bytes
  {
    assert (packed + more)[..|before + bytes|] == before + bytes;
  }

  /** One item: unpacking finds what packing put after `out`. */
  lemma UnpackOne(items: seq<Item>, m: Machine, args: seq<Value>, data: seq<byte>, pos: nat, at: nat, bytes: seq<byte>,
                  acc: seq<Value>, r: Result<(seq<Value>, nat)>)
    requires Sound(m) && items != [] && items[0].Field? && WellSized(items) && at == Aligned(pos, items[0])
    requires FieldFits(items[0].k, items[0].size, args, acc)
    requires Encode(items[0].k, items[0].size, items[0].h, m, args) == Ok(bytes)
    requires at + |bytes| <= |data| && data[at..at + |bytes|] == bytes
    requires Unpack(items[1..], m, data, at + |bytes|, FieldResult(items[0].k, items[0].size, args, acc)) == r
    ensures Unpack(items, m, data, pos, acc) == r
  {
    DecodesField(items[0].k, items[0].size, items[0].h, m, args, data, at, acc);
  }

  lemma {:induction false} RoundTripFrom(items: seq<Item>, m: Machine, args: seq<Value>, out: seq<byte>,
                                         packed: seq<byte>, more: seq<byte>, acc: seq<Value>)
    requires Sound(m) && WellSized(items) && Fits(items, args, acc)
    requires Pack(items, m, args, out) == Ok(packed)
    ensures Unpack(items, m, packed + more, |out|, acc) == Ok((Results(items, args, acc), |packed| + 1))
    decreases |items|
  {
    if items != [] {
      var next := OneItem(items, m, args, out, packed, more, acc);
      RestIsWellSized(items);
      RoundTripFrom(items[1..], m, ArgsAfter(items[0].k, args), next, packed, more,
                    FieldResult(items[0].k, items[0].size, args, acc));
    }
  }

  /** The first item: `next` is packed after it, and unpacking goes on from there. */
  lemma OneItem(items: seq<Item>, m: Machine, args: seq<Value>, out: seq<byte>, packed: seq<byte>, more: seq<byte>,
                acc: seq<Value>)
    returns (next: seq<byte>)
    requires Sound(m) && WellSized(items) && items != [] && Pack(items, m, args, out) == Ok(packed)
    requires items[0].Field? ==> FieldFits(items[0].k, items[0].size, args, acc)
    ensures items[0].Field? && Pack(items[1..], m, ArgsAfter(items[0].k, args), next) == Ok(packed)
    ensures Unpack(items, m, packed + more, |out|, acc)
         == Unpack(items[1..], m, packed + more, |next|, FieldResult(items[0].k, items[0].size, args, acc))
  {
    var aligned, bytes := PackOne(items, m, args, out, packed);
    next := aligned + bytes;
    PackAppends(items[1..], m, ArgsAfter(items[0].k, args), next);
    FoundWherePacked(items, m, args, |out|, aligned, bytes, packed, more, acc,
                     Unpack(items[1..], m, packed + more, |next|, FieldResult(items[0].k, items[0].size, args, acc)));
  }

  lemma RestIsWellSized(items: seq<Item>)
    requires WellSized(items) && items != []
    ensures WellSized(items[1..])
  {
  }

  lemma FoundWherePacked(items: seq<Item>, m: Machine, args: seq<Value>, pos: nat, aligned: seq<byte>, bytes: seq<byte>,
                         packed: seq<byte>, more: seq<byte>, acc: seq<Value>, r: Result<(seq<Value>, nat)>)
    requires Sound(m) && items != [] && items[0].Field? && WellSized(items) && |aligned| == Aligned(pos, items[0])
    requires FieldFits(items[0].k, items[0].size, args, acc)
    requires Encode(items[0].k, items[0].size, items[0].h, m, args) == Ok(bytes) && aligned + bytes <= packed
    requires Unpack(items[1..], m, packed + more, |aligned| + |bytes|,
                    FieldResult(items[0].k, items[0].size, args, acc)) == r
    ensures Unpack(items, m, packed + more, pos, acc) == r
  {
    var data := packed + more;
    StandsAt(aligned, bytes, packed, more);
    UnpackOne(items, m, args, data, pos, |aligned|, bytes, acc, r);
  }

  /** The padding and the bytes of the first item, after which the others are packed. */
  lemma PackOne(items: seq<Item>, m: Machine, args: seq<Value>, out: seq<byte>, packed: seq<byte>)
    returns (aligned: seq<byte>, bytes: seq<byte>)
    requires items != [] && Pack(items, m, args, out) == Ok(packed)
    ensures items[0].Field? && |aligned| == Aligned(|out|, items[0])
    ensures Encode(items[0].k, items[0].size, items[0].h, m, args) == Ok(bytes)
    ensures Pack(items[1..], m, ArgsAfter(items[0].k, args), aligned + bytes) == Ok(packed)
  {
    aligned := out + Zeros(ToAlign(|out|, items[0].h, items[0].k, items[0].size));
    bytes := Encode(items[0].k, items[0].size, items[0].h, m, args).value;
  }

  /** How many arguments the items take. */
  function Taken(items: seq<Item>): nat {
    if items == [] then 0
    else (if items[0].Field? && items[0].k.TakesArgument() then 1 else 0) + Taken(items[1..])
  }

  /** The next option that takes an argument is `c0`, which takes its length off the results. */
  predicate CountsNext(items: seq<Item>) {
    && items != [] && items[0].Field?
    && if items[0].k.TakesArgument() then items[0].k.Chars? && items[0].size == 0 else CountsNext(items[1..])
  }

  /** What should come back: each argument that is taken, those of `cn` cut to n bytes, but for the
      lengths that a following `c0` uses up. */
  function Returned(items: seq<Item>, args: seq<Value>): seq<Value> {
    if items == [] || !items[0].Field? then []
    else if !items[0].k.TakesArgument() || args == [] then Returned(items[1..], args)
    else (if CountsNext(items[1..]) then [] else [Shown(items[0], args[0])]) + Returned(items[1..], args[1..])
  }

  function Shown(item: Item, arg: Value): Value
    requires item.Field?
  {
    if item.k.Chars? && item.size > 0 && arg.Str? && item.size <= |arg.s| then Str(arg.s[..item.size]) else arg
  }

  /** The results so far, but for a length that a `c0` next uses up. */
  function Kept(items: seq<Item>, acc: seq<Value>): seq<Value> {
    if CountsNext(items) && acc != [] then acc[..|acc| - 1] else acc
  }

  lemma {:induction false} ResultsAreReturned(items: seq<Item>, m: Machine, args: seq<Value>, out: seq<byte>,
                                              acc: seq<Value>)
    requires Pack(items, m, args, out).Ok? && Fits(items, args, acc)
    ensures CountsNext(items) ==> acc != []
    ensures Results(items, args, acc) == Kept(items, acc) + Returned(items, args)
    decreases |items|
  {
    if items != [] {
      var Field(k, size, h) := items[0];
      var bytes := Encode(k, size, h, m, args).value;
      var acc' := FieldResult(k, size, args, acc);
      ResultsAreReturned(items[1..], m, ArgsAfter(k, args), out + Zeros(ToAlign(|out|, h, k, size)) + bytes, acc');
      if k.TakesArgument() {
        ShownLast(items[0], m, args, acc, Kept(items, acc));
        LastOrNot(Kept(items, acc), Shown(items[0], args[0]), Returned(items[1..], args[1..]));
      }
    }
  }

  lemma LastOrNot(kept: seq<Value>, last: Value, more: seq<Value>)
    ensures (kept + [last])[..|kept + [last]| - 1] + more == kept + ([] + more)
    ensures (kept + [last]) + more == kept + ([last] + more)
  {
  }

  /** An argument becomes the last result. */
  lemma ShownLast(item: Item, m: Machine, args: seq<Value>, acc: seq<Value>, kept: seq<Value>)
    requires item.Field? && item.k.TakesArgument() && Encode(item.k, item.size, item.h, m, args).Ok?
    requires FieldFits(item.k, item.size, args, acc)
    requires kept == if item.k.Chars? && item.size == 0 && acc != [] then acc[..|acc| - 1] else acc
    ensures args != [] && FieldResult(item.k, item.size, args, acc) == kept + [Shown(item, args[0])]
    ensures item.k.Chars? && item.size == 0 ==> acc != []
  {
  }

  /** Unpacking a packed string, whatever follows it, with the same format gives back what was packed
      and the position after it. */
  lemma RoundTrip(fmt: string, native: Endian, args: seq<Value>, more: seq<byte>)
    requires Pack(Items(fmt, DefaultHeader(native)), Lp64(native), args, []).Ok?
    requires Fits(Items(fmt, DefaultHeader(native)), args, [])
    ensures
      var items := Items(fmt, DefaultHeader(native));
      var packed := Pack(items, Lp64(native), args, []).value;
      Unpack(items, Lp64(native), packed + more, 0, []) == Ok((Returned(items, args), |packed| + 1))
  {
    var items := Items(fmt, DefaultHeader(native));
    ItemsAreWellSized(fmt, DefaultHeader(native));
    Lp64IsSound(native);
    RoundTripFrom(items, Lp64(native), args, [], Pack(items, Lp64(native), args, []).value, more, []);
    ResultsAreReturned(items, Lp64(native), args, [], []);
    assert [] + Returned(items, args) == Returned(items, args);
  }

  /** No `c0`, and each `cn` has an argument of exactly n bytes. */
  predicate Whole(items: seq<Item>, args: seq<Value>) {
    items != [] && items[0].Field? ==>
      && (items[0].k.Chars? ==> items[0].size > 0 && (args != [] && args[0].Str? ==> |args[0].s| == items[0].size))
      && Whole(items[1..], ArgsAfter(items[0].k, args))
  }

  /** Then what comes back is the arguments that are taken, all of them, in order. */
  lemma {:induction false} ReturnedAreArguments(items: seq<Item>, m: Machine, args: seq<Value>, out: seq<byte>)
    requires Whole(items, args) && Pack(items, m, args, out).Ok?
    ensures Taken(items) <= |args| && Returned(items, args) == args[..Taken(items)]
    ensures !CountsNext(items)
    decreases |items|
  {
    if items != [] {
      var Field(k, size, h) := items[0];
      var bytes := Encode(k, size, h, m, args).value;
      ReturnedAreArguments(items[1..], m, ArgsAfter(k, args), out + Zeros(ToAlign(|out|, h, k, size)) + bytes);
      if k.Chars? {
        assert args[0].s[..size] == args[0].s;
      }
    }
  }

  /** So with `cn` arguments of exactly n bytes every argument comes back itself. */
  lemma ArgumentsComeBack(fmt: string, native: Endian, args: seq<Value>, more: seq<byte>)
    requires Pack(Items(fmt, DefaultHeader(native)), Lp64(native), args, []).Ok?
    requires Fits(Items(fmt, DefaultHeader(native)), args, []) && Whole(Items(fmt, DefaultHeader(native)), args)
    ensures
      var items := Items(fmt, DefaultHeader(native));
      var packed := Pack(items, Lp64(native), args, []).value;
      && Taken(items) <= |args|
      && Unpack(items, Lp64(native), packed + more, 0, []) == Ok((args[..Taken(items)], |packed| + 1))
  {
    RoundTrip(fmt, native, args, more);
    ReturnedAreArguments(Items(fmt, DefaultHeader(native)), Lp64(native), args, []);
  }

  /** An option without a fixed size. */
  predicate Variable(item: Item) { item.Field? && (item.k.CString? || (item.k.Chars? && item.size == 0)) }

  ghost predicate SomeVariable(items: seq<Item>) { exists i :: 0 <= i < |items| && Variable(items[i]) }

  lemma SomeVariableTail(items: seq<Item>)
    requires items != []
    ensures SomeVariable(items) <==> Variable(items[0]) || SomeVariable(items[1..])
  {
    if i :| 0 <= i < |items[1..]| && Variable(items[1..][i]) { assert Variable(items[i + 1]); }
    if i :| 0 < i < |items| && Variable(items[i]) { assert Variable(items[1..][i - 1]); }
  }

  lemma FixedLength(k: Kind, size: nat, h: Header, m: Machine, args: seq<Value>)
    requires Sound(m) && WellSized([Field(k, size, h)]) && !Variable(Field(k, size, h))
    requires Encode(k, size, h, m, args).Ok?
    ensures |Encode(k, size, h, m, args).value| == size
  {
    assert [Field(k, size, h)][0].k == k;
  }

  /** For a format that pack accepts, size is the packed length whatever the arguments, or reports an
      option without a fixed size if and only if there is one. */
  lemma {:induction false} SizeIsPackedLength(items: seq<Item>, m: Machine, args: seq<Value>, out: seq<byte>)
    requires Sound(m) && WellSized(items) && Pack(items, m, args, out).Ok?
    ensures Size(items, |out|)
         == if SomeVariable(items) then Err(NoFixedSize) else Ok(|Pack(items, m, args, out).value|)
    decreases |items|
  {
    if items != [] {
      SomeVariableTail(items);
      var Field(k, size, h) := items[0];
      var bytes := Encode(k, size, h, m, args).value;
      var next := out + Zeros(ToAlign(|out|, h, k, size)) + bytes;
      SizeIsPackedLength(items[1..], m, ArgsAfter(k, args), next);
      if !Variable(items[0]) {
        FixedLength(k, size, h, m, args);
        assert |next| == Aligned(|out|, items[0]) + size;
      }
    }
  }
}
