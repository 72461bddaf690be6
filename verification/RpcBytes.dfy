/** What pack writes and the decoders read, byte by byte. */
module RpcBytes {
  import opened Bytes
  import opened RpcCodec
  import opened RpcPack

  // Byte k of a number, counting from the least significant; negative numbers are in two's complement.

  function Low(n: int): byte {
    (n % 256) as byte
  }

  function Big4(n: nat): seq<byte> {
    [Low(n / 16777216), Low(n / 65536), Low(n / 256), Low(n)]
  }

  lemma Quotients(n: nat)
    ensures n / 256 / 256 == n / 65536 && n / 65536 / 256 == n / 16777216
  {}

  lemma ToBeStep(n: nat, k: nat)
    requires k > 0
    ensures ToBe(n, k) == ToBe(n / 256, k - 1) + [Low(n)]
    ensures k == 1 ==> ToBe(n, k) == [Low(n)]
  {}

  lemma ToBeTwo(n: nat)
    ensures ToBe(n, 2) == [Low(n / 256), Low(n)]
  {
    ToBeStep(n, 2);
    ToBeStep(n / 256, 1);
  }

  lemma ToBeFour(n: nat)
    ensures ToBe(n, 4) == Big4(n)
  {
    Quotients(n);
    ToBeStep(n, 4);
    ToBeStep(n / 256, 3);
    ToBeTwo(n / 65536);
  }

  lemma Powers()
    ensures Pow256(1) == 256 && Pow256(2) == 0x1_0000 && Pow256(4) == 0x1_0000_0000
  {
    assert Pow256(0) == 1 && Pow256(3) == 0x100_0000;
  }

  lemma EncodedOne(f: Field)
    requires GoodField(f)
    ensures GoodFields([f]) && Encoded([f]) == EncodedField(f)
  {
    assert [f][1..] == [] && Encoded([f][1..]) == [];
    assert EncodedField(f) + [] == EncodedField(f);
  }

  lemma FieldsOfOne(fmt: string, args: seq<Arg>, f: Field)
    requires fmt != [] && |args| == 1 && FieldAt(fmt, args[0]) == Ok((f, ""))
    ensures Fields(fmt, args) == Ok([f])
  {
    assert args[1..] == [] && Fields("", args[1..]) == Ok([]);
    assert [f] + [] == [f];
  }

  lemma OneFieldPacked(fmt: string, arg: Arg)
    requires fmt != []
    ensures var r := FieldAt(fmt, arg);
      && (r.Err? ==> Packed(fmt, [arg]) == Err(r.error))
      && (r.Ok? && r.value.1 == "" ==> GoodField(r.value.0) && Packed(fmt, [arg]) == Ok(EncodedField(r.value.0)))
  {
    var r := FieldAt(fmt, arg);
    if r.Ok? && r.value.1 == "" {
      var f := r.value.0;
      FieldIsGood(fmt, arg);
      FieldsOfOne(fmt, [arg], f);
      EncodedOne(f);
    }
  }

  lemma ByteItem(n: int)
    ensures Packed("B", [Number(n)]) == if 0 <= n < 256 then Ok([0x02, 0x01, Low(n)]) else Err(StructError)
  {
    Powers();
    OneFieldPacked("B", Number(n));
    if n >= 0 {
      ToBeStep(n, 1);
      assert [0x02, 1 as byte] + [Low(n)] == [0x02, 0x01, Low(n)];
    }
  }

  lemma ShortItem(n: int)
    ensures Packed("H", [Number(n)])
         == if 0 <= n < 0x1_0000 then Ok([0x02, 0x02, Low(n / 256), Low(n)]) else Err(StructError)
  {
    Powers();
    OneFieldPacked("H", Number(n));
    if n >= 0 {
      ToBeTwo(n);
      assert [0x02, 2 as byte] + [Low(n / 256), Low(n)] == [0x02, 0x02, Low(n / 256), Low(n)];
    }
  }

  lemma LongItem(n: int)
    ensures Packed("L", [Number(n)]) == if 0 <= n < 0x1_0000_0000 then Ok([0x02, 0x04] + Big4(n)) else Err(StructError)
  {
    Powers();
    OneFieldPacked("L", Number(n));
    if n >= 0 {
      ToBeFour(n);
    }
  }

  /** The integer items: their tag, size and bytes, most significant first, and their range. */
  lemma IntItems(n: int)
    ensures Packed("B", [Number(n)]) == if 0 <= n < 256 then Ok([0x02, 0x01, Low(n)]) else Err(StructError)
    ensures Packed("H", [Number(n)])
         == if 0 <= n < 0x1_0000 then Ok([0x02, 0x02, Low(n / 256), Low(n)]) else Err(StructError)
    ensures Packed("L", [Number(n)]) == if 0 <= n < 0x1_0000_0000 then Ok([0x02, 0x04] + Big4(n)) else Err(StructError)
  {
    ByteItem(n);
    ShortItem(n);
    LongItem(n);
  }

  // ----- strings

  // The bytes of one element, least significant first.
  function Element(v: int, elem: char): seq<byte> {
    if elem == '?' then [if v == 0 then 0 else 1]
    else if elem == 'b' || elem == 'B' then [Low(v)]
    else if elem == 'h' || elem == 'H' then [Low(v), Low(v / 256)]
    else [Low(v), Low(v / 256), Low(v / 65536), Low(v / 16777216)]
  }

  function Elementwise(vals: seq<int>, elem: char): seq<byte> {
    if vals == [] then [] else Element(vals[0], elem) + Elementwise(vals[1..], elem)
  }

  predicate InRange(v: int, elem: char) {
    match elem
    case '?' => true
    case 'b' => -128 <= v < 128
    case 'B' => 0 <= v < 256
    case 'h' => -0x8000 <= v < 0x8000
    case 'H' => 0 <= v < 0x1_0000
    case 'i' => -0x8000_0000 <= v < 0x8000_0000
    case _ => 0 <= v < 0x1_0000_0000
  }

  predicate AllInRange(vals: seq<int>, elem: char) {
    forall v :: v in vals ==> InRange(v, elem)
  }

  lemma ToLeStep(n: nat, k: nat)
    requires k > 0
    ensures ToLe(n, k) == [Low(n)] + ToLe(n / 256, k - 1)
    ensures k == 1 ==> ToLe(n, k) == [Low(n)]
  {}

  lemma ToLeTwo(n: nat)
    ensures ToLe(n, 2) == [Low(n), Low(n / 256)]
  {
    ToLeStep(n, 2);
    ToLeStep(n / 256, 1);
  }

  lemma ToLeFour(n: nat)
    ensures ToLe(n, 4) == [Low(n), Low(n / 256), Low(n / 65536), Low(n / 16777216)]
  {
    Quotients(n);
    ToLeStep(n, 4);
    ToLeStep(n / 256, 3);
    ToLeTwo(n / 65536);
  }

  // Adding a power of 256 above all bytes looked at changes none of them.
  lemma TwosComplement(v: int)
    ensures Low(v + 256) == Low(v)
    ensures Low(v + 0x1_0000) == Low(v) && Low((v + 0x1_0000) / 256) == Low(v / 256)
    ensures Low(v + 0x1_0000_0000) == Low(v) && Low((v + 0x1_0000_0000) / 256) == Low(v / 256)
    ensures Low((v + 0x1_0000_0000) / 65536) == Low(v / 65536)
    ensures Low((v + 0x1_0000_0000) / 16777216) == Low(v / 16777216)
  {
    assert (v + 0x1_0000) / 256 == v / 256 + 256 && (v + 0x1_0000_0000) / 256 == v / 256 + 0x100_0000;
    assert (v + 0x1_0000_0000) / 65536 == v / 65536 + 0x1_0000;
    assert (v + 0x1_0000_0000) / 16777216 == v / 16777216 + 256;
  }

  lemma StoredBytes(v: int, elem: char, size: nat)
    requires NativeSize(elem) == Some(size) && size != 8
    ensures Stored(v, elem, size).Some? <==> InRange(v, elem)
    ensures InRange(v, elem) ==> ToLe(Stored(v, elem, size).value, size) == Element(v, elem)
  {
    Powers();
    TwosComplement(v);
    if InRange(v, elem) {
      var n := Stored(v, elem, size).value;
      ToLeStep(n, 1);
      ToLeTwo(n);
      ToLeFour(n);
    }
  }

  lemma {:induction false} ElementsPacked(vals: seq<int>, elem: char, size: nat)
    requires NativeSize(elem) == Some(size) && size != 8
    ensures PackElements(vals, elem, size)
         == if AllInRange(vals, elem) then Ok(Elementwise(vals, elem)) else Err(StructError)
  {
    if vals != [] {
      StoredBytes(vals[0], elem, size);
      ElementsPacked(vals[1..], elem, size);
      assert forall v :: v in vals <==> v == vals[0] || v in vals[1..];
    }
  }

  // The tag, the element count, the bytes of the field and of its padding, the elements, and zeros.
  function StringBytes(tag: byte, len: nat, vals: seq<int>, elem: char, size: nat): seq<byte>
    requires |vals| <= len && len * size < 0x1_0000_0000 && size > 0
  {
    CountFits(|vals|, len, size);
    var count, padding := len * size, (len - |vals|) * size;
    [tag] + EncodedLength(|vals|)
    + ([0x02, 0x04] + Big4(count) + ([0x02, 0x04] + Big4(padding)) + Elementwise(vals, elem) + Zeros(padding))
  }

  lemma CountFits(valid: nat, len: nat, size: nat)
    requires valid <= len && len * size < 0x1_0000_0000 && size > 0
    ensures |MinimalBe(valid)| <= 4 && (len - valid) * size < 0x1_0000_0000
  {
    assert len <= len * size && (len - valid) * size <= len * size;
    MinimalBeSize(valid, 4, 0x1_0000_0000);
  }

  // The size of an element, and the tag that says so; 8 bytes have none, and other codes are none of struct's.
  function Width(elem: char): (w: nat)
    ensures w == 0 || w == 1 || w == 2 || w == 4 || w == 8
  {
    match elem
    case 'b' => 1 case 'B' => 1 case '?' => 1
    case 'h' => 2 case 'H' => 2
    case 'i' => 4 case 'I' => 4
    case 'l' => 8 case 'L' => 8 case 'q' => 8 case 'Q' => 8 case 'n' => 8 case 'N' => 8 case 'P' => 8 case 'd' => 8
    case _ => 0
  }

  lemma WidthIs(elem: char)
    ensures NativeSize(elem) == if Width(elem) == 0 then None else Some(Width(elem))
  {}

  // What a string item of len elements amounts to.
  function StringItem(len: nat, vals: seq<int>, elem: char): Result<seq<byte>> {
    var w := Width(elem);
    if |vals| > len then Err(AssertionError)
    else if w == 0 then Err(StructError)
    else if w == 8 then Err(KeyError)
    else if !AllInRange(vals, elem) || len * w >= 0x1_0000_0000 then Err(StructError)
    else Ok(StringBytes(if w == 1 then 0x55 else if w == 2 then 0x56 else 0x57, len, vals, elem, w))
  }

  lemma PackedIntBytes(n: nat)
    ensures PackedInt(n) == [0x02, 0x04] + Big4(n)
  {
    ToBeFour(n);
  }

  lemma StringParts(f: Field, vals: seq<int>, elem: char, count: nat, padding: nat)
    requires GoodField(f) && f.StrField? && f.valid == |vals| && f.payload == Elementwise(vals, elem)
    requires count == f.length * f.size && padding == (f.length - f.valid) * f.size
    ensures EncodedField(f) == StringBytes(StringTagOf(f.size), f.length, vals, elem, f.size)
  {
    ShortLength(f);
    PackedIntBytes(count);
    PackedIntBytes(padding);
  }

  lemma StringFieldBytes(vals: seq<int>, elem: char, len: nat, w: nat)
    requires w == Width(elem) && w != 0 && w != 8 && |vals| <= len && len * w < 0x1_0000_0000 && AllInRange(vals, elem)
    ensures var f := StrField(w, len, |vals|, Elementwise(vals, elem));
      GoodField(f) && StringItem(len, vals, elem) == Ok(EncodedField(f))
  {
    WidthIs(elem);
    ElementsPacked(vals, elem, w);
    PackElementsSize(vals, elem, w);
    StringParts(StrField(w, len, |vals|, Elementwise(vals, elem)), vals, elem, len * w, (len - |vals|) * w);
  }

  lemma StringFieldIs(vals: seq<int>, digits: string, elem: char, len: nat)
    requires Digits(digits) == |digits| > 0 && Decimal(digits) == len
    ensures var r := StringField(vals, digits, elem);
      if r.Err? then StringItem(len, vals, elem) == Err(r.error)
      else r.value.1 == "" && GoodField(r.value.0) && StringItem(len, vals, elem) == Ok(EncodedField(r.value.0))
  {
    assert digits[..|digits|] == digits && digits[|digits|..] == "";
    WidthIs(elem);
    var w := Width(elem);
    if w != 0 && w != 8 && |vals| <= len {
      ElementsPacked(vals, elem, w);
      if AllInRange(vals, elem) && len * w < 0x1_0000_0000 {
        StringFieldBytes(vals, elem, len, w);
      }
    }
  }

  /** A string item of a format: exactly when it is accepted, with which exception otherwise, and its bytes. */
  lemma StringItems(vals: seq<int>, digits: string, elem: char, len: nat)
    requires Digits(digits) == |digits| > 0 && Decimal(digits) == len
    ensures Packed(['S', elem] + digits, [Elements(vals)]) == StringItem(len, vals, elem)
    ensures Packed(['s'] + digits, [Elements(vals)]) == StringItem(len, vals, 'B')
  {
    ElementFormat(['S', elem] + digits, digits, elem, Elements(vals));
    ByteFormat(['s'] + digits, digits, Elements(vals));
    ItemIs(['S', elem] + digits, vals, digits, elem, len);
    ItemIs(['s'] + digits, vals, digits, 'B', len);
  }

  lemma ElementFormat(fmt: string, digits: string, elem: char, arg: Arg)
    requires fmt == ['S', elem] + digits && arg.Elements?
    ensures FieldAt(fmt, arg) == StringField(arg.vals, digits, elem)
  {
    assert fmt[2..] == digits && fmt[1] == elem;
  }

  lemma ByteFormat(fmt: string, digits: string, arg: Arg)
    requires fmt == ['s'] + digits && arg.Elements?
    ensures FieldAt(fmt, arg) == StringField(arg.vals, digits, 'B')
  {
    assert fmt[1..] == digits;
  }

  lemma ItemIs(fmt: string, vals: seq<int>, digits: string, elem: char, len: nat)
    requires fmt != [] && FieldAt(fmt, Elements(vals)) == StringField(vals, digits, elem)
    requires Digits(digits) == |digits| > 0 && Decimal(digits) == len
    ensures Packed(fmt, [Elements(vals)]) == StringItem(len, vals, elem)
  {
    StringFieldIs(vals, digits, elem, len);
    OneFieldPacked(fmt, Elements(vals));
  }

  predicate AllDigits(s: string) {
    forall i :: 0 <= i < |s| ==> '0' <= s[i] <= '9'
  }

  /** The number of elements is written in decimal. */
  lemma DecimalDigits(digits: string, last: char)
    requires AllDigits(digits) && '0' <= last <= '9'
    ensures Digits(digits + [last]) == |digits| + 1 && Decimal("") == 0
    ensures Decimal(digits + [last]) == 10 * Decimal(digits) + (last as int - 48)
  {
    assert (digits + [last])[..|digits|] == digits;
    DigitsStop(digits + [last], "");
    assert digits + [last] + "" == digits + [last];
  }

  // ----- items one after the other

  function Then(first: Result<seq<byte>>, rest: Result<seq<byte>>): Result<seq<byte>> {
    match first
    case Err(e) => Err(e)
    case Ok(a) => match rest case Err(e) => Err(e) case Ok(b) => Ok(a + b)
  }

  // The same field, with this rest of the format behind it.
  predicate SameField(alone: Result<(Field, string)>, rest: string, together: Result<(Field, string)>) {
    if alone.Err? then together == Err(alone.error)
    else alone.value.1 == "" && together == Ok((alone.value.0, rest))
  }

  lemma FieldThen(fmt: string, item: string, rest: string, arg: Arg, args: seq<Arg>)
    requires fmt == item + rest && item != []
    requires SameField(FieldAt(item, arg), rest, FieldAt(fmt, arg))
    ensures Packed(fmt, [arg] + args) == Then(Packed(item, [arg]), Packed(rest, args))
  {
    OneFieldPacked(item, arg);
    assert ([arg] + args)[1..] == args;
    if FieldAt(item, arg).Ok? {
      var f := FieldAt(item, arg).value.0;
      if Fields(rest, args).Ok? {
        var fs := Fields(rest, args).value;
        FieldsAreGood(rest, args);
        assert ([f] + fs)[1..] == fs;
      }
    }
  }

  lemma {:induction false} DigitsStop(digits: string, rest: string)
    requires AllDigits(digits) && (rest == "" || !('0' <= rest[0] <= '9'))
    ensures Digits(digits + rest) == |digits| && (digits + rest)[..|digits|] == digits
    ensures (digits + rest)[|digits|..] == rest
  {
    if digits == [] {
      assert digits + rest == rest;
    } else {
      assert (digits + rest)[1..] == digits[1..] + rest;
      DigitsStop(digits[1..], rest);
    }
  }

  lemma StringFieldThen(vals: seq<int>, digits: string, rest: string, elem: char)
    requires AllDigits(digits) && (rest == "" || !('0' <= rest[0] <= '9'))
    ensures SameField(StringField(vals, digits, elem), rest, StringField(vals, digits + rest, elem))
    ensures Digits(digits + rest) == Digits(digits) == |digits|
  {
    DigitsStop(digits, rest);
    DigitsStop(digits, "");
    assert digits + "" == digits;
  }

  /** Items are packed one after the other, and the first exception wins. */
  lemma IntItemThen(ch: char, rest: string, arg: Arg, args: seq<Arg>)
    requires ch == 'B' || ch == 'H' || ch == 'L'
    ensures Packed([ch] + rest, [arg] + args) == Then(Packed([ch], [arg]), Packed(rest, args))
  {
    assert ([ch] + rest)[1..] == rest && [ch][1..] == "";
    FieldThen([ch] + rest, [ch], rest, arg, args);
  }

  lemma StringItemThen(digits: string, rest: string, arg: Arg, args: seq<Arg>)
    requires AllDigits(digits) && (rest == "" || !('0' <= rest[0] <= '9'))
    ensures Packed(['s'] + digits + rest, [arg] + args) == Then(Packed(['s'] + digits, [arg]), Packed(rest, args))
  {
    var item := ['s'] + digits;
    StringFieldThen(if arg.Elements? then arg.vals else [], digits, rest, 'B');
    ShortTail(item, digits, rest, item + rest);
    FieldThen(item + rest, item, rest, arg, args);
  }

  lemma ShortTail(item: string, digits: string, rest: string, fmt: string)
    requires item == ['s'] + digits && fmt == item + rest
    ensures item[1..] == digits && fmt[0] == 's' && fmt[1..] == digits + rest
  {}

  lemma ElementItemThen(elem: char, digits: string, rest: string, arg: Arg, args: seq<Arg>)
    requires AllDigits(digits) && (rest == "" || !('0' <= rest[0] <= '9'))
    ensures Packed(['S', elem] + digits + rest, [arg] + args)
         == Then(Packed(['S', elem] + digits, [arg]), Packed(rest, args))
  {
    var item := ['S', elem] + digits;
    StringFieldThen(if arg.Elements? then arg.vals else [], digits, rest, elem);
    LongTail(item, elem, digits, rest, item + rest);
    FieldThen(item + rest, item, rest, arg, args);
  }

  lemma LongTail(item: string, elem: char, digits: string, rest: string, fmt: string)
    requires item == ['S', elem] + digits && fmt == item + rest
    ensures item[2..] == digits && fmt[0] == 'S' && fmt[1] == elem && fmt[2..] == digits + rest
  {}

  /** The ends of a format and of the arguments, and characters that are no item. */
  lemma NoItem(fmt: string, args: seq<Arg>)
    ensures Packed("", args) == if args == [] then Ok([]) else Err(ValueError)
    ensures fmt != "" ==> Packed(fmt, []) == Err(IndexError)
    ensures fmt != "" && fmt[0] !in "BHLsS" && args != [] ==> Packed(fmt, args) == Err(ValueError)
    ensures args != [] ==> Packed("S", args) == Err(IndexError)
    ensures args != [] && args[0].Elements? ==> Packed("s", args) == Err(ValueError)
  {
    assert args != [] ==> FieldAt("s", args[0]).Err?;
  }

  // ----- reading

  lemma Big4Read(n: nat, rest: seq<byte>)
    requires n < 0x1_0000_0000
    ensures IntAt([0x02, 0x04] + Big4(n) + rest) == Ok((n, rest))
  {
    PackedIntBytes(n);
    PackedIntRoundTrip(n, rest);
  }

  /** An integer is its length and that many bytes, most significant first; a short message raises IndexError. */
  lemma IntRead(a: byte, bytes: seq<byte>, rest: seq<byte>)
    requires |bytes| < 256
    ensures IntAt([0x02, |bytes| as byte] + bytes + rest) == Ok((FromBe(bytes), rest))
    ensures |bytes| > 0 ==> IntAt([0x02, |bytes| as byte] + bytes[1..]) == Err(IndexError)
    ensures a != 0x02 ==> IntAt([a] + rest) == Err(AssertionError)
  {
    var d := [0x02, |bytes| as byte] + bytes + rest;
    assert d[2..2 + |bytes|] == bytes && d[2 + |bytes|..] == rest;
  }

  lemma BigEndian(bytes: seq<byte>, last: byte)
    ensures FromBe([]) == 0 && FromBe(bytes + [last]) == 256 * FromBe(bytes) + last as int
  {
    assert (bytes + [last])[..|bytes|] == bytes;
  }

  /** A length below 128 is one byte; otherwise the low four bits of that byte count the bytes that follow, the least
      significant first. */
  lemma LengthRead(b: byte, bytes: seq<byte>, rest: seq<byte>)
    requires |bytes| == b as int % 16
    ensures b < 0x80 ==> LengthAt([b] + rest) == Ok((b as int, rest))
    ensures b >= 0x80 ==> LengthAt([b] + bytes + rest) == Ok((FromLe(bytes), rest))
    ensures b >= 0x80 && bytes != [] ==> LengthAt([b] + bytes[1..]) == Err(IndexError)
    ensures FromLe([]) == 0 && FromLe([b] + bytes) == b as int + 256 * FromLe(bytes)
  {
    assert ([b] + rest)[1..] == rest;
    var d, k := [b] + bytes + rest, |bytes|;
    assert d[1..1 + k] == bytes && d[1 + k..] == rest;
    assert ([b] + bytes)[1..] == bytes;
  }

  /** A string is its payload of valid elements and its padding, whatever the element count in front says when it is
      0; any other count must be their sum. */
  lemma StringRead(tag: byte, size: nat, length: seq<byte>, valid: nat, count: nat, padding: nat, tail: seq<byte>)
    requires (tag == 0x55 && size == 1) || (tag == 0x56 && size == 2) || (tag == 0x57 && size == 4)
    requires LengthAt(length) == Ok((valid, [])) && count < 0x1_0000_0000 && padding < 0x1_0000_0000
    ensures StringAt([tag] + (length + ([0x02, 0x04] + Big4(count) + ([0x02, 0x04] + Big4(padding) + tail))))
         == if count != 0 && count != valid * size + padding then Err(AssertionError)
            else if |tail| < valid * size + padding then Err(IndexError)
            else Ok((tail[..valid * size], tail[valid * size + padding..]))
  {
    var d2 := [0x02, 0x04] + Big4(padding) + tail;
    var d1 := [0x02, 0x04] + Big4(count) + d2;
    Big4Read(count, d2);
    Big4Read(padding, tail);
    BehindLength(tag, length, valid, d1);
    StringReadFrom([tag] + (length + d1), size, valid, count, padding, d1, d2, tail);
  }

  lemma StringReadFrom(d: seq<byte>, size: nat, valid: nat, count: nat, padding: nat,
                       d1: seq<byte>, d2: seq<byte>, tail: seq<byte>)
    requires d != [] && ((d[0] == 0x55 && size == 1) || (d[0] == 0x56 && size == 2) || (d[0] == 0x57 && size == 4))
    requires LengthAt(d[1..]) == Ok((valid, d1)) && IntAt(d1) == Ok((count, d2)) && IntAt(d2) == Ok((padding, tail))
    ensures StringAt(d)
         == if count != 0 && count != valid * size + padding then Err(AssertionError)
            else if |tail| < valid * size + padding then Err(IndexError)
            else Ok((tail[..valid * size], tail[valid * size + padding..]))
  {
    StringSteps(d, size, valid, d1);
    PayloadSteps(valid * size, d1, count, d2, padding, tail);
  }

  lemma BehindLength(tag: byte, length: seq<byte>, valid: nat, rest: seq<byte>)
    requires LengthAt(length) == Ok((valid, []))
    ensures var d := [tag] + (length + rest); d != [] && d[0] == tag && LengthAt(d[1..]) == Ok((valid, rest))
  {
    assert ([tag] + (length + rest))[1..] == length + rest;
    LengthAtPrefix(length, rest);
    assert [] + rest == rest;
  }

  /** So with a count of 0 any payload and padding are read. */
  lemma CountlessString(payload: seq<byte>, filler: seq<byte>)
    requires |payload| < 128 && |filler| < 0x1_0000_0000
    ensures Decoded([0x55] + ([|payload| as byte] + ([0x02, 0x04] + Big4(0)
                    + ([0x02, 0x04] + Big4(|filler|) + (payload + filler))))) == Ok([Str(payload)])
  {
    var length, tail := [|payload| as byte], payload + filler;
    assert length[1..] == [];
    StringRead(0x55, 1, length, |payload|, 0, |filler|, tail);
    var d := [0x55] + (length + ([0x02, 0x04] + Big4(0) + ([0x02, 0x04] + Big4(|filler|) + tail)));
    assert tail[..|payload|] == payload && tail[|payload| + |filler|..] == [];
    OneValue(d, payload);
  }

  lemma OneValue(d: seq<byte>, payload: seq<byte>)
    requires d != [] && StringTag(d[0]) && StringAt(d) == Ok((payload, []))
    ensures Decoded(d) == Ok([Str(payload)])
  {
    DecodedStep(d, Str(payload), []);
    assert [Str(payload)] + [] == [Str(payload)];
  }

  /** What each first byte means to the schema-less decoder, and each format character to the other. */
  lemma FirstBytes(data: seq<byte>, fmt: string)
    requires data != [] && fmt != []
    ensures data[0] == 0x02 && IntAt(data).Err? ==> Decoded(data) == Err(IntAt(data).error)
    ensures data[0] !in [0x02, 0x55, 0x56, 0x57] ==> Decoded(data) == Err(ValueError)
    ensures fmt[0] == 'n' && data[0] != 0x02 ==> DecodedAs(fmt, data) == Err(AssertionError)
    ensures fmt[0] == 's' && data[0] !in [0x55, 0x56, 0x57] ==> DecodedAs(fmt, data) == Err(AssertionError)
    ensures fmt[0] != 'n' && fmt[0] != 's' ==> DecodedAs(fmt, data) == Err(ValueError)
    ensures fmt[0] == 'n' || fmt[0] == 's' ==> DecodedAs(fmt, []) == Err(IndexError)
  {}
}
