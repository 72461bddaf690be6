/** The format-directed encoder, and exactly when the decoder gets back what it was given. */
module RpcPack {
  import opened Bytes
  import opened RpcCodec

  // What a caller passes for one format item: a number, or the elements of a string.
  datatype Arg = Number(n: int) | Elements(vals: seq<int>)

  // One encoded item. A string of valid elements is padded up to length elements.
  datatype Field = IntField(size: nat, n: nat) | StrField(size: nat, length: nat, valid: nat, payload: seq<byte>)

  function ToBe(n: nat, k: nat): (s: seq<byte>)
    ensures |s| == k
  {
    if k == 0 then [] else ToBe(n / 256, k - 1) + [(n % 256) as byte]
  }

  function ToLe(n: nat, k: nat): (s: seq<byte>)
    ensures |s| == k
  {
    if k == 0 then [] else [(n % 256) as byte] + ToLe(n / 256, k - 1)
  }

  // The size struct gives an element in native mode, where 'l' and 'L' have 8 bytes.
  function NativeSize(elem: char): Option<nat> {
    if elem == 'b' || elem == 'B' || elem == '?' then Some(1)
    else if elem == 'h' || elem == 'H' then Some(2)
    else if elem == 'i' || elem == 'I' then Some(4)
    else if elem in "lLqQnNPd" then Some(8)
    else None
  }

  // The number an element of at most 4 bytes is stored as: signed codes in two's complement, '?' as a truth value.
  function Stored(v: int, elem: char, size: nat): Option<nat> {
    if elem == '?' then Some(if v == 0 then 0 else 1)
    else if elem == 'b' || elem == 'h' || elem == 'i' then
      if 0 <= 2 * v + Pow256(size) < 2 * Pow256(size) then Some(if v < 0 then v + Pow256(size) else v) else None
    else if 0 <= v < Pow256(size) then Some(v) else None
  }

  // struct.pack of the elements in native order.
  function PackElements(vals: seq<int>, elem: char, size: nat): Result<seq<byte>> {
    if vals == [] then Ok([])
    else if Stored(vals[0], elem, size).None? then Err(StructError)
    else
      match PackElements(vals[1..], elem, size)
      case Ok(rest) => Ok(ToLe(Stored(vals[0], elem, size).value, size) + rest)
      case Err(e) => Err(e)
  }

  predicate IsDigit(c: char) {
    '0' <= c <= '9'
  }

  function Digits(fmt: string): (k: nat)
    ensures k <= |fmt|
    ensures forall i :: 0 <= i < k ==> IsDigit(fmt[i])
    ensures k < |fmt| ==> !IsDigit(fmt[k])
  {
    if fmt != [] && IsDigit(fmt[0]) then 1 + Digits(fmt[1..]) else 0
  }

  function Decimal(s: string): nat
    requires forall i :: 0 <= i < |s| ==> IsDigit(s[i])
  {
    if s == [] then 0
    else
      assert IsDigit(s[|s| - 1]);
      10 * Decimal(s[..|s| - 1]) + (s[|s| - 1] as int - '0' as int)
  }

  // _pack_string up to its output: the digits are taken off the format.
  function StringField(vals: seq<int>, fmt: string, elem: char): Result<(Field, string)> {
    var k := Digits(fmt);
    if k == 0 then Err(ValueError)
    else
      var length := Decimal(fmt[..k]);
      if |vals| > length then Err(AssertionError)
      else
        match NativeSize(elem)
        case None => Err(StructError)
        case Some(size) =>
          if size == 8 then Err(KeyError)
          else
            match PackElements(vals, elem, size)
            case Err(e) => Err(e)
            case Ok(payload) =>
              if length * size >= 0x1_0000_0000 then Err(StructError)
              else Ok((StrField(size, length, |vals|, payload), fmt[k..]))
  }

  function IntSize(ch: char): nat {
    if ch == 'B' then 1 else if ch == 'H' then 2 else if ch == 'L' then 4 else 0
  }

  // One round of pack's loop: the field and what is left of the format.
  function FieldAt(fmt: string, arg: Arg): Result<(Field, string)>
    requires fmt != []
  {
    var ch := fmt[0];
    if IntSize(ch) != 0 then
      if arg.Number? && 0 <= arg.n < Pow256(IntSize(ch)) then Ok((IntField(IntSize(ch), arg.n), fmt[1..]))
      else Err(StructError)
    else if ch == 's' then
      if arg.Elements? then StringField(arg.vals, fmt[1..], 'B')
      else if Digits(fmt[1..]) == 0 then Err(ValueError) else Err(TypeError)
    else if ch == 'S' then
      if |fmt| < 2 then Err(IndexError)
      else if arg.Elements? then StringField(arg.vals, fmt[2..], fmt[1])
      else if Digits(fmt[2..]) == 0 then Err(ValueError) else Err(TypeError)
    else Err(ValueError)
  }

  // All fields, which takes as many arguments as the format has items.
  function Fields(fmt: string, args: seq<Arg>): Result<seq<Field>>
    decreases |args|
  {
    if fmt == [] then (if args == [] then Ok([]) else Err(ValueError))
    else if args == [] then Err(IndexError)
    else
      match FieldAt(fmt, args[0])
      case Err(e) => Err(e)
      case Ok((f, rest)) =>
        match Fields(rest, args[1..])
        case Err(e) => Err(e)
        case Ok(fs) => Ok([f] + fs)
  }

  function PackedInt(n: nat): seq<byte> {
    [0x02, 0x04] + ToBe(n, 4)
  }

  predicate GoodField(f: Field) {
    match f
    case IntField(size, n) => (size == 1 || size == 2 || size == 4) && n < Pow256(size)
    case StrField(size, length, valid, payload) =>
      && (size == 1 || size == 2 || size == 4)
      && valid <= length && length * size < 0x1_0000_0000 && |payload| == valid * size
  }

  lemma ShortLength(f: Field)
    requires GoodField(f) && f.StrField?
    ensures |MinimalBe(f.valid)| <= 4
  {
    MinimalBeSize(f.valid, 4, 0x1_0000_0000);
  }

  function StringTagOf(size: nat): byte {
    if size == 1 then 0x55 else if size == 2 then 0x56 else 0x57
  }

  function EncodedField(f: Field): (s: seq<byte>)
    requires GoodField(f)
    ensures s != []
  {
    match f
    case IntField(size, n) => [0x02, size as byte] + ToBe(n, size)
    case StrField(size, length, valid, payload) =>
      ShortLength(f);
      [StringTagOf(size)] + EncodedLength(valid)
      + (PackedInt(length * size) + PackedInt((length - valid) * size) + payload + Zeros((length - valid) * size))
  }

  predicate GoodFields(fs: seq<Field>) {
    forall f :: f in fs ==> GoodField(f)
  }

  function Encoded(fs: seq<Field>): seq<byte>
    requires GoodFields(fs)
  {
    if fs == [] then [] else EncodedField(fs[0]) + Encoded(fs[1..])
  }

  function ValueOf(f: Field): Value {
    match f
    case IntField(_, n) => Int(n)
    case StrField(_, _, _, payload) => Str(payload)
  }

  function ValuesOf(fs: seq<Field>): seq<Value> {
    if fs == [] then [] else [ValueOf(fs[0])] + ValuesOf(fs[1..])
  }

  // A string whose length reads the same in both byte orders; integers always do.
  predicate Legible(f: Field) {
    f.StrField? ==> f.valid < 128 || Palindromic(f.valid)
  }

  lemma {:induction false} PackElementsSize(vals: seq<int>, elem: char, size: nat)
    requires PackElements(vals, elem, size).Ok?
    ensures |PackElements(vals, elem, size).value| == |vals| * size
  {
    if vals != [] {
      PackElementsSize(vals[1..], elem, size);
      assert |vals| * size == size + |vals[1..]| * size;
    }
  }

  lemma StringFieldGood(vals: seq<int>, fmt: string, elem: char)
    requires StringField(vals, fmt, elem).Ok?
    ensures GoodField(StringField(vals, fmt, elem).value.0) && StringField(vals, fmt, elem).value.0.StrField?
  {
    PackElementsSize(vals, elem, NativeSize(elem).value);
  }

  lemma FieldIsGood(fmt: string, arg: Arg)
    requires fmt != [] && FieldAt(fmt, arg).Ok?
    ensures GoodField(FieldAt(fmt, arg).value.0)
  {
    if fmt[0] == 's' {
      StringFieldGood(arg.vals, fmt[1..], 'B');
    } else if fmt[0] == 'S' {
      StringFieldGood(arg.vals, fmt[2..], fmt[1]);
    }
  }

  lemma GoodCons(f: Field, fs: seq<Field>)
    requires GoodField(f) && GoodFields(fs)
    ensures GoodFields([f] + fs)
  {}

  lemma {:induction false} FieldsAreGood(fmt: string, args: seq<Arg>)
    requires Fields(fmt, args).Ok?
    ensures GoodFields(Fields(fmt, args).value)
    decreases |args|
  {
    if fmt != [] {
      var (f, rest) := FieldAt(fmt, args[0]).value;
      FieldIsGood(fmt, args[0]);
      FieldsAreGood(rest, args[1..]);
      GoodCons(f, Fields(rest, args[1..]).value);
    }
  }

  lemma {:induction false} ToBeMeans(n: nat, k: nat)
    requires n < Pow256(k)
    ensures FromBe(ToBe(n, k)) == n
  {
    if k > 0 {
      ToBeMeans(n / 256, k - 1);
      assert ToBe(n, k)[..k - 1] == ToBe(n / 256, k - 1);
    }
  }

  lemma IntRoundTrip(size: nat, n: nat, rest: seq<byte>)
    requires size < 128 && n < Pow256(size)
    ensures IntAt([0x02, size as byte] + ToBe(n, size) + rest) == Ok((n, rest))
  {
    var d := [0x02, size as byte] + ToBe(n, size) + rest;
    assert d[2..2 + size] == ToBe(n, size) && d[2 + size..] == rest;
    ToBeMeans(n, size);
  }

  lemma PackedIntRoundTrip(n: nat, rest: seq<byte>)
    requires n < 0x1_0000_0000
    ensures IntAt(PackedInt(n) + rest) == Ok((n, rest))
  {
    IntRoundTrip(4, n, rest);
  }

  lemma Regroup(a: seq<byte>, b: seq<byte>, c: seq<byte>, d: seq<byte>, e: seq<byte>)
    ensures a + b + c + d + e == a + (b + (c + d + e))
  {}

  lemma TailParts(payload: seq<byte>, zeros: seq<byte>, rest: seq<byte>)
    ensures (payload + zeros + rest)[..|payload|] == payload
    ensures (payload + zeros + rest)[|payload| + |zeros|..] == rest
  {}

  lemma PayloadSteps(read: nat, d: seq<byte>, count: nat, d1: seq<byte>, padding: nat, d2: seq<byte>)
    requires IntAt(d) == Ok((count, d1)) && IntAt(d1) == Ok((padding, d2))
    ensures PayloadAt(read, d) ==
      if count != 0 && count != read + padding then Err(AssertionError)
      else if |d2| < read + padding then Err(IndexError)
      else Ok((d2[..read], d2[read + padding..]))
  {}

  lemma PayloadRoundTrip(read: nat, count: nat, padding: nat, payload: seq<byte>, rest: seq<byte>)
    requires count == |payload| + padding < 0x1_0000_0000 && (read != |payload| ==> count != 0)
    ensures PayloadAt(read, PackedInt(count) + PackedInt(padding) + payload + Zeros(padding) + rest)
         == if read == |payload| then Ok((payload, rest)) else Err(AssertionError)
  {
    var tail := payload + Zeros(padding) + rest;
    Regroup(PackedInt(count), PackedInt(padding), payload, Zeros(padding), rest);
    PackedIntRoundTrip(count, PackedInt(padding) + tail);
    PackedIntRoundTrip(padding, tail);
    PayloadSteps(read, PackedInt(count) + (PackedInt(padding) + tail), count, PackedInt(padding) + tail, padding, tail);
    TailParts(payload, Zeros(padding), rest);
  }

  // The element count the decoder takes from an encoded length.
  function ReadLength(n: nat): nat {
    if n < 128 then n else FromBe(Reverse(MinimalBe(n)))
  }

  lemma ReadLengthMeans(n: nat, rest: seq<byte>)
    requires |MinimalBe(n)| <= 15
    ensures LengthAt(EncodedLength(n) + rest) == Ok((ReadLength(n), rest))
    ensures ReadLength(n) == n <==> n < 128 || Palindromic(n)
  {
    LengthRoundTrip(n, rest);
  }

  lemma SameMultiple(a: nat, b: nat, size: nat)
    requires size > 0
    ensures a * size == b * size <==> a == b
  {
    if a < b {
      assert (b - a) * size > 0;
    } else if b < a {
      assert (a - b) * size > 0;
    }
  }

  lemma FieldShape(f: Field, rest: seq<byte>, count: nat, padding: nat)
    requires GoodField(f) && f.StrField? && count == f.length * f.size && padding == (f.length - f.valid) * f.size
    ensures |MinimalBe(f.valid)| <= 4
    ensures var d := EncodedField(f) + rest;
      && d[0] == StringTagOf(f.size)
      && d[1..] == EncodedLength(f.valid) + (PackedInt(count) + PackedInt(padding) + f.payload + Zeros(padding) + rest)
  {
    ShortLength(f);
    var parts := PackedInt(count) + PackedInt(padding) + f.payload + Zeros(padding);
    BehindTag(StringTagOf(f.size), EncodedLength(f.valid), parts, rest);
  }

  lemma BehindTag(tag: byte, length: seq<byte>, parts: seq<byte>, rest: seq<byte>)
    ensures var d := [tag] + length + parts + rest; d[0] == tag && d[1..] == length + (parts + rest)
  {}

  lemma StringSteps(d: seq<byte>, size: nat, read: nat, body: seq<byte>)
    requires size == 1 || size == 2 || size == 4
    requires d != [] && d[0] == StringTagOf(size) && LengthAt(d[1..]) == Ok((read, body))
    ensures StringAt(d) == PayloadAt(read * size, body)
  {}

  lemma Sizes(f: Field, read: nat, count: nat, padding: nat)
    requires GoodField(f) && f.StrField? && count == f.length * f.size && padding == (f.length - f.valid) * f.size
    ensures count == |f.payload| + padding
    ensures read * f.size == |f.payload| <==> read == f.valid
    ensures f.length > 0 ==> count != 0
  {
    SameMultiple(read, f.valid, f.size);
    SameMultiple(f.length, 0, f.size);
  }

  /** One string field is read back exactly if its length is legible, and fails the decoder's assertion otherwise. */
  lemma StringRoundTrip(f: Field, rest: seq<byte>)
    requires GoodField(f) && f.StrField?
    ensures StringAt(EncodedField(f) + rest)
         == if Legible(f) then Ok((f.payload, rest)) else Err(AssertionError)
  {
    var count, padding, read := f.length * f.size, (f.length - f.valid) * f.size, ReadLength(f.valid);
    var body := PackedInt(count) + PackedInt(padding) + f.payload + Zeros(padding) + rest;
    FieldShape(f, rest, count, padding);
    ReadLengthMeans(f.valid, body);
    Sizes(f, read, count, padding);
    StringSteps(EncodedField(f) + rest, f.size, read, body);
    PayloadRoundTrip(read * f.size, count, padding, f.payload, rest);
  }

  lemma FieldRoundTrip(f: Field, rest: seq<byte>)
    requires GoodField(f)
    ensures EncodedField(f) + rest != []
    ensures ValueAt(EncodedField(f) + rest)
         == if Legible(f) then Ok((ValueOf(f), rest)) else Err(AssertionError)
  {
    match f
    case IntField(size, n) => IntRoundTrip(size, n, rest);
    case StrField(_, _, _, _) => StringRoundTrip(f, rest);
  }

  lemma {:induction false} FieldsRoundTrip(fs: seq<Field>)
    requires GoodFields(fs)
    ensures Decoded(Encoded(fs))
         == if forall f :: f in fs ==> Legible(f) then Ok(ValuesOf(fs)) else Err(AssertionError)
  {
    if fs != [] {
      var rest := Encoded(fs[1..]);
      FieldRoundTrip(fs[0], rest);
      FieldsRoundTrip(fs[1..]);
      assert forall f :: f in fs <==> f == fs[0] || f in fs[1..];
      if Legible(fs[0]) {
        DecodedStep(Encoded(fs), ValueOf(fs[0]), rest);
      }
    }
  }

  // The bytes pack returns.
  function Packed(fmt: string, args: seq<Arg>): Result<seq<byte>> {
    match Fields(fmt, args)
    case Err(e) => Err(e)
    case Ok(fs) =>
      FieldsAreGood(fmt, args);
      Ok(Encoded(fs))
  }

  lemma {:induction false} ToLeMeans(n: nat, k: nat)
    requires n < Pow256(k)
    ensures FromLe(ToLe(n, k)) == n
  {
    if k > 0 {
      ToLeMeans(n / 256, k - 1);
      assert ToLe(n, k)[1..] == ToLe(n / 256, k - 1);
    }
  }

  lemma SliceBehind(a: seq<byte>, rest: seq<byte>, lo: nat, hi: nat, from: nat, upTo: nat)
    requires from <= upTo <= |rest| && lo == |a| + from && hi == |a| + upTo
    ensures (a + rest)[lo..hi] == rest[from..upTo]
  {}

  /** A payload holds the elements one after the other, each as a little-endian number. */
  lemma {:induction false} PayloadHolds(vals: seq<int>, elem: char, size: nat, i: nat, lo: nat, p: seq<byte>)
    requires size > 0 && PackElements(vals, elem, size) == Ok(p) && i < |vals| && lo == i * size
    ensures lo + size <= |p| && Stored(vals[i], elem, size) == Some(FromLe(p[lo..lo + size]))
    decreases i
  {
    var n, rest := Stored(vals[0], elem, size).value, PackElements(vals[1..], elem, size).value;
    var first := ToLe(n, size);
    assert p == first + rest;
    if i == 0 {
      assert p[0..size] == first;
      StoredFits(vals[0], elem, size);
      ToLeMeans(n, size);
    } else {
      assert lo - size == (i - 1) * size;
      PayloadHolds(vals[1..], elem, size, i - 1, lo - size, rest);
      SliceBehind(first, rest, lo, lo + size, lo - size, lo);
    }
  }

  lemma StoredFits(v: int, elem: char, size: nat)
    requires Stored(v, elem, size).Some? && size > 0
    ensures Stored(v, elem, size).value < Pow256(size)
  {}

  // The element code of each item of a format; an integer item has its own.
  function ItemCodes(fmt: string): string
    decreases |fmt|
  {
    if fmt == [] then []
    else if fmt[0] == 's' then ['B'] + ItemCodes(fmt[1..][Digits(fmt[1..])..])
    else if fmt[0] == 'S' && |fmt| > 1 then [fmt[1]] + ItemCodes(fmt[2..][Digits(fmt[2..])..])
    else [fmt[0]] + ItemCodes(fmt[1..])
  }

  // What should come back for an argument: its number, or its elements as bytes.
  ghost predicate Gives(arg: Arg, code: char, v: Value) {
    match arg
    case Number(n) => v.Int? && v.n == n
    case Elements(vals) =>
      v.Str? && NativeSize(code).Some? && PackElements(vals, code, NativeSize(code).value) == Ok(v.payload)
  }

  ghost predicate GivesAll(args: seq<Arg>, codes: string, values: seq<Value>) {
    |args| == |codes| == |values| && forall i :: 0 <= i < |args| ==> Gives(args[i], codes[i], values[i])
  }

  // What a caller can check: a string is short, or its element count reads the same in both byte orders.
  predicate Readable(arg: Arg) {
    arg.Elements? ==> |arg.vals| < 128 || Palindromic(|arg.vals|)
  }

  lemma StringFieldGives(vals: seq<int>, fmt: string, elem: char, f: Field, rest: string)
    requires StringField(vals, fmt, elem) == Ok((f, rest))
    ensures rest == fmt[Digits(fmt)..]
    ensures Gives(Elements(vals), elem, ValueOf(f)) && (Legible(f) <==> Readable(Elements(vals)))
  {}

  lemma FieldGives(fmt: string, arg: Arg, f: Field, rest: string) returns (code: char)
    requires fmt != [] && FieldAt(fmt, arg) == Ok((f, rest))
    ensures ItemCodes(fmt) == [code] + ItemCodes(rest)
    ensures Gives(arg, code, ValueOf(f)) && (Legible(f) <==> Readable(arg))
  {
    if fmt[0] == 's' {
      code := 'B';
      StringFieldGives(arg.vals, fmt[1..], code, f, rest);
    } else if fmt[0] == 'S' {
      code := fmt[1];
      StringFieldGives(arg.vals, fmt[2..], code, f, rest);
    } else {
      code := fmt[0];
    }
  }

  lemma GivesCons(arg: Arg, code: char, v: Value, args: seq<Arg>, codes: string, values: seq<Value>)
    requires Gives(arg, code, v) && GivesAll(args, codes, values)
    ensures GivesAll([arg] + args, [code] + codes, [v] + values)
  {}

  lemma {:induction false} FieldsGive(fmt: string, args: seq<Arg>)
    requires Fields(fmt, args).Ok?
    ensures var fs := Fields(fmt, args).value;
      && GivesAll(args, ItemCodes(fmt), ValuesOf(fs))
      && ((forall f :: f in fs ==> Legible(f)) <==> (forall a :: a in args ==> Readable(a)))
    decreases |args|
  {
    if fmt != [] {
      var (f, rest) := FieldAt(fmt, args[0]).value;
      var fs := Fields(rest, args[1..]).value;
      var code := FieldGives(fmt, args[0], f, rest);
      FieldsGive(rest, args[1..]);
      GivesCons(args[0], code, ValueOf(f), args[1..], ItemCodes(rest), ValuesOf(fs));
      assert args == [args[0]] + args[1..];
      assert ([f] + fs)[1..] == fs;
    }
  }

  /** Whatever pack accepts is decoded to the numbers and the elements' bytes it was given, exactly if every string is
      readable; the decoder's assertion fails otherwise. */
  lemma CodecRoundTrip(fmt: string, args: seq<Arg>)
    requires Packed(fmt, args).Ok?
    ensures var r := Decoded(Packed(fmt, args).value);
      if forall a :: a in args ==> Readable(a) then r.Ok? && GivesAll(args, ItemCodes(fmt), r.value)
      else r == Err(AssertionError)
  {
    FieldsAreGood(fmt, args);
    FieldsRoundTrip(Fields(fmt, args).value);
    FieldsGive(fmt, args);
  }

  lemma {:induction false} ZerosPack(n: nat)
    ensures PackElements(seq(n, _ => 0), 'B', 1).Ok?
    decreases n
  {
    if n > 0 {
      ZerosPack(n - 1);
      assert seq(n, _ => 0)[1..] == seq(n - 1, _ => 0);
    }
  }

  lemma Lengths()
    ensures Palindromic(257) && !Palindromic(258)
    ensures Digits("257") == Digits("258") == 3 && Decimal("257") == 257 && Decimal("258") == 258
  {
    assert MinimalBe(257) == [1, 1] && MinimalBe(258) == [1, 2];
    assert Reverse([1, 1]) == [1, 1] && Reverse([1, 2]) == [2, 1];
    assert Decimal("25") == 25 by {
      assert "25"[..1] == "2" && "2"[..0] == "";
    }
    assert "257"[..2] == "25" && "258"[..2] == "25";
    assert "257"[1..] == "57" && "57"[1..] == "7" && "7"[1..] == "";
    assert "258"[1..] == "58" && "58"[1..] == "8" && "8"[1..] == "";
  }

  lemma OneField(digits: string, n: nat, vals: seq<int>)
    requires Digits(digits) == |digits| > 0 && Decimal(digits) == n < 0x1_0000_0000
    requires |vals| == n && PackElements(vals, 'B', 1).Ok?
    ensures StringField(vals, digits, 'B').Ok? && StringField(vals, digits, 'B').value.1 == ""
  {
    assert digits[..|digits|] == digits && digits[|digits|..] == "";
  }

  lemma OnlyField(fmt: string, arg: Arg)
    requires fmt != [] && FieldAt(fmt, arg).Ok? && FieldAt(fmt, arg).value.1 == ""
    ensures Packed(fmt, [arg]).Ok?
  {
    assert [arg][1..] == [];
    assert Fields("", []).Ok?;
  }

  lemma OneString(digits: string, n: nat, vals: seq<int>, fmt: string)
    requires Digits(digits) == |digits| > 0 && Decimal(digits) == n < 0x1_0000_0000 && fmt == ['s'] + digits
    requires |vals| == n && PackElements(vals, 'B', 1).Ok?
    ensures var r := Packed(fmt, [Elements(vals)]);
      r.Ok? && (if Readable(Elements(vals)) then Decoded(r.value).Ok? else Decoded(r.value) == Err(AssertionError))
  {
    OneField(digits, n, vals);
    assert fmt[1..] == digits;
    OnlyField(fmt, Elements(vals));
    CodecRoundTrip(fmt, [Elements(vals)]);
    assert Elements(vals) in [Elements(vals)];
  }

  /** Of two strings that fill their fields, the decoder reads the one of 257 bytes but not the one of 258. */
  lemma StringMisread()
    ensures var r := Packed("s257", [Elements(seq(257, _ => 0))]); r.Ok? && Decoded(r.value).Ok?
    ensures var r := Packed("s258", [Elements(seq(258, _ => 0))]); r.Ok? && Decoded(r.value) == Err(AssertionError)
  {
    ZerosPack(257);
    ZerosPack(258);
    Lengths();
    OneString("257", 257, seq(257, _ => 0), "s257");
    OneString("258", 258, seq(258, _ => 0), "s258");
  }
}
