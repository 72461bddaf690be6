/** The Python routines of the codec, working on lists they pop from. */
module RpcMessages {
  import opened Bytes
  import opened RpcCodec
  import opened RpcPack

  /** A bytearray that is consumed from the front. */
  class ByteArray {
    var data: seq<byte>

    constructor (data: seq<byte>)
      ensures this.data == data
    {
      this.data := data;
    }

    method Pop() returns (r: Result<byte>)
      modifies this
      ensures r == (if old(data) == [] then Err(IndexError) else Ok(old(data)[0]))
      ensures data == if old(data) == [] then [] else old(data)[1..]
    {
      if data == [] {
        return Err(IndexError);
      }
      r := Ok(data[0]);
      data := data[1..];
    }
  }

  // What a routine that takes a value off the front of a bytearray promises; after an exception the rest is not used.
  ghost predicate Took<T>(was: Result<(T, seq<byte>)>, r: Result<T>, rest: seq<byte>) {
    match was
    case Ok((v, left)) => r == Ok(v) && rest == left
    case Err(e) => r == Err(e)
  }

  lemma FromBeSnoc(s: seq<byte>, b: byte)
    ensures FromBe(s + [b]) == 256 * FromBe(s) + b as int
  {
    assert (s + [b])[..|s|] == s;
  }

  lemma {:induction false} FromLeSnoc(s: seq<byte>, b: byte)
    ensures FromLe(s + [b]) == FromLe(s) + b as int * Pow256(|s|)
  {
    if s == [] {
      assert (s + [b])[1..] == [];
    } else {
      FromLeSnoc(s[1..], b);
      assert (s + [b])[1..] == s[1..] + [b];
      assert 256 * (b as int * Pow256(|s| - 1)) == b as int * Pow256(|s|);
    }
  }

  // The value loop of take_asn_int.
  method TakeBytes(buf: ByteArray, n: nat) returns (r: Result<nat>)
    modifies buf
    ensures Took(if |old(buf.data)| < n then Err(IndexError)
                 else Ok((FromBe(old(buf.data)[..n]), old(buf.data)[n..])), r, buf.data)
  {
    ghost var s := buf.data;
    var val := 0;
    for i := 0 to n
      invariant i <= |s| && buf.data == s[i..] && val == FromBe(s[..i])
    {
      var b := buf.Pop();
      if b.Err? {
        return Err(b.error);
      }
      FromBeSnoc(s[..i], b.value);
      assert s[..i + 1] == s[..i] + [b.value];
      val := 256 * val + b.value as int;
    }
    r := Ok(val);
  }

  method TakeAsnInt(buf: ByteArray) returns (r: Result<nat>)
    modifies buf
    ensures Took(IntAt(old(buf.data)), r, buf.data)
  {
    ghost var s := buf.data;
    var t := buf.Pop();
    if t.Err? {
      return Err(t.error);
    }
    if t.value != 0x02 {
      return Err(AssertionError);
    }
    var l := buf.Pop();
    if l.Err? {
      return Err(l.error);
    }
    assert buf.data == s[2..];
    if |s| - 2 >= l.value as int {
      BehindTwo(s, l.value as int);
    }
    r := TakeBytes(buf, l.value as int);
  }

  lemma BehindTwo(s: seq<byte>, k: nat)
    requires 2 + k <= |s|
    ensures s[2..][..k] == s[2..2 + k] && s[2..][k..] == s[2 + k..]
  {}

  // The length loop of take_string: each further byte counts for more.
  method TakeLength(buf: ByteArray) returns (r: Result<nat>)
    modifies buf
    ensures Took(LengthAt(old(buf.data)), r, buf.data)
  {
    ghost var s := buf.data;
    var valid := buf.Pop();
    if valid.Err? || valid.value < 128 {
      return if valid.Err? then Err(valid.error) else Ok(valid.value as int);
    }
    var value, place, k := 0, 1, valid.value as int % 16;
    for i := 0 to k
      invariant i + 1 <= |s| && buf.data == s[i + 1..] && value == FromLe(s[1..i + 1]) && place == Pow256(i)
    {
      var b := buf.Pop();
      if b.Err? {
        return Err(b.error);
      }
      FromLeSnoc(s[1..i + 1], b.value);
      assert s[1..i + 2] == s[1..i + 1] + [b.value];
      value := value + b.value as int * place;
      place := 256 * place;
    }
    r := Ok(value);
  }

  method TakePayload(buf: ByteArray, valid: nat) returns (r: Result<seq<byte>>)
    modifies buf
    ensures Took(PayloadAt(valid, old(buf.data)), r, buf.data)
  {
    var count := TakeAsnInt(buf);
    if count.Err? {
      return Err(count.error);
    }
    var padding := TakeAsnInt(buf);
    if padding.Err? {
      return Err(padding.error);
    }
    if count.value != 0 && count.value != valid + padding.value {
      return Err(AssertionError);
    }
    ghost var s := buf.data;
    var payload := buf.data[..Min(valid, |buf.data|)];
    for i := 0 to valid + padding.value
      invariant i <= |s| && buf.data == s[i..]
    {
      var b := buf.Pop();
      if b.Err? {
        return Err(b.error);
      }
    }
    r := Ok(payload);
  }

  method TakeString(buf: ByteArray) returns (r: Result<seq<byte>>)
    modifies buf
    ensures Took(StringAt(old(buf.data)), r, buf.data)
  {
    var t := buf.Pop();
    if t.Err? {
      return Err(t.error);
    }
    if !StringTag(t.value) {
      return Err(AssertionError);
    }
    var valid := TakeLength(buf);
    if valid.Err? {
      return Err(valid.error);
    }
    var bytes := valid.value;
    if t.value == 0x56 {
      bytes := bytes * 2;
    } else if t.value == 0x57 {
      bytes := bytes * 4;
    }
    assert bytes == valid.value * ElemSize(t.value);
    r := TakePayload(buf, bytes);
  }

  lemma PrependNothing(r: Result<seq<Value>>)
    ensures Prepend([], r) == r
  {
    if r.Ok? {
      assert [] + r.value == r.value;
    }
  }

  /** unpack_unknown. */
  method UnpackUnknown(data: seq<byte>) returns (r: Result<seq<Value>>)
    ensures r == Decoded(data)
  {
    var buf := new ByteArray(data);
    var out: seq<Value> := [];
    PrependNothing(Decoded(data));
    while buf.data != []
      invariant Decoded(data) == Prepend(out, Decoded(buf.data))
      decreases |buf.data|
    {
      ghost var s, done := buf.data, out;
      var t := buf.data[0];
      if t == 0x02 {
        var n := TakeAsnInt(buf);
        if n.Err? {
          return Err(n.error);
        }
        out := out + [Int(n.value)];
      } else if StringTag(t) {
        var p := TakeString(buf);
        if p.Err? {
          return Err(p.error);
        }
        out := out + [Str(p.value)];
      } else {
        return Err(ValueError);
      }
      DecodedStep(s, out[|done|], buf.data);
      PrependConcat(done, [out[|done|]], Decoded(buf.data));
    }
    assert out + [] == out;
    r := Ok(out);
  }

  /** unpack. */
  method Unpack(fmt: string, data: seq<byte>) returns (r: Result<seq<Value>>)
    ensures r == DecodedAs(fmt, data)
  {
    var buf := new ByteArray(data);
    var out: seq<Value> := [];
    PrependNothing(DecodedAs(fmt, data));
    assert fmt[0..] == fmt;
    for i := 0 to |fmt|
      invariant DecodedAs(fmt, data) == Prepend(out, DecodedAs(fmt[i..], buf.data))
    {
      ghost var done, s := out, buf.data;
      assert fmt[i..][1..] == fmt[i + 1..];
      if fmt[i] == 'n' {
        var n := TakeAsnInt(buf);
        if n.Err? {
          return Err(n.error);
        }
        out := out + [Int(n.value)];
      } else if fmt[i] == 's' {
        var p := TakeString(buf);
        if p.Err? {
          return Err(p.error);
        }
        out := out + [Str(p.value)];
      } else {
        return Err(ValueError);
      }
      PrependConcat(done, [out[|done|]], DecodedAs(fmt[i + 1..], buf.data));
    }
    assert out + [] == out;
    r := Ok(out);
  }

  lemma {:induction false} MinimalBeSplit(n: nat)
    requires n > 0
    ensures MinimalBe(n) == MinimalBe(n / 256) + [(n % 256) as byte]
  {}

  // The length field of _pack_string.
  method PackLength(valid: nat) returns (field: seq<byte>)
    requires |MinimalBe(valid)| <= 127
    ensures field == EncodedLength(valid)
  {
    if valid < 128 {
      return [valid as byte];
    }
    var remain, first, rest := valid, 0x80, [];
    while remain > 0
      invariant MinimalBe(valid) == MinimalBe(remain) + rest && first == 0x80 + |rest|
    {
      MinimalBeSplit(remain);
      first := first + 1;
      rest := [(remain % 256) as byte] + rest;
      remain := remain / 256;
    }
    field := [first as byte] + rest;
  }

  lemma {:induction false} DigitsAre(fmt: string, k: nat)
    requires k <= |fmt| && (forall i :: 0 <= i < k ==> IsDigit(fmt[i])) && (k < |fmt| ==> !IsDigit(fmt[k]))
    ensures Digits(fmt) == k
  {
    if k > 0 {
      DigitsAre(fmt[1..], k - 1);
    }
  }

  // Taking the digits off the front of the format list.
  method TakeDigits(fmt: string) returns (digits: string, rest: string)
    ensures digits == fmt[..Digits(fmt)] && rest == fmt[Digits(fmt)..]
  {
    digits, rest := [], fmt;
    while rest != [] && IsDigit(rest[0])
      invariant digits + rest == fmt && forall i :: 0 <= i < |digits| ==> IsDigit(digits[i])
      decreases |rest|
    {
      digits := digits + [rest[0]];
      rest := rest[1..];
    }
    DigitsAre(fmt, |digits|);
  }

  ghost predicate Made(was: Result<(Field, string)>, r: Result<(seq<byte>, string)>) {
    match was
    case Ok((f, rest)) => GoodField(f) && r == Ok((EncodedField(f), rest))
    case Err(e) => r == Err(e)
  }

  method PackStringField(size: nat, length: nat, valid: nat, payload: seq<byte>) returns (field: seq<byte>)
    requires GoodField(StrField(size, length, valid, payload))
    ensures field == EncodedField(StrField(size, length, valid, payload))
  {
    ShortLength(StrField(size, length, valid, payload));
    var count, padding := length * size, (length - valid) * size;
    var validField := PackLength(valid);
    field := [StringTagOf(size)];
    field := field + validField;
    field := field + (PackedInt(count) + PackedInt(padding) + payload + Zeros(padding));
  }

  /** _pack_string. */
  method PackString(vals: seq<int>, fmt: string, elem: char) returns (r: Result<(seq<byte>, string)>)
    ensures Made(StringField(vals, fmt, elem), r)
  {
    var digits, rest := TakeDigits(fmt);
    if digits == [] {
      return Err(ValueError);
    }
    var length := Decimal(digits);
    if |vals| > length {
      return Err(AssertionError);
    }
    var valid := |vals|;
    var elemSize := NativeSize(elem);
    if elemSize == None {
      return Err(StructError);
    }
    var size := elemSize.value;
    if size == 8 {
      return Err(KeyError);
    }
    var payload := PackElements(vals, elem, size);
    if payload.Err? {
      return Err(payload.error);
    }
    if length * size >= 0x1_0000_0000 {
      return Err(StructError);
    }
    StringFieldGood(vals, fmt, elem);
    var field := PackStringField(size, length, valid, payload.value);
    r := Ok((field, rest));
  }

  // One round of pack's loop.
  method PackOne(fmt: string, arg: Arg) returns (r: Result<(seq<byte>, string)>)
    requires fmt != []
    ensures Made(FieldAt(fmt, arg), r)
  {
    var ch := fmt[0];
    if IntSize(ch) != 0 {
      if arg.Number? && 0 <= arg.n < Pow256(IntSize(ch)) {
        r := Ok(([0x02, IntSize(ch) as byte] + ToBe(arg.n, IntSize(ch)), fmt[1..]));
      } else {
        r := Err(StructError);
      }
    } else if ch != 's' && ch != 'S' {
      r := Err(ValueError);
    } else if ch == 'S' && |fmt| < 2 {
      r := Err(IndexError);
    } else {
      var elem, rest := if ch == 's' then 'B' else fmt[1], if ch == 's' then fmt[1..] else fmt[2..];
      if arg.Elements? {
        r := PackString(arg.vals, rest, elem);
      } else {
        r := Err(if Digits(rest) == 0 then ValueError else TypeError);
      }
    }
  }

  lemma {:induction false} EncodedSnoc(fs: seq<Field>, f: Field)
    requires GoodFields(fs) && GoodField(f)
    ensures GoodFields(fs + [f]) && Encoded(fs + [f]) == Encoded(fs) + EncodedField(f)
  {
    if fs == [] {
      assert [f][1..] == [];
    } else {
      assert (fs + [f])[1..] == fs[1..] + [f];
      EncodedSnoc(fs[1..], f);
    }
  }

  function Behind(done: seq<Field>, r: Result<seq<Field>>): Result<seq<Field>> {
    match r case Ok(fs) => Ok(done + fs) case Err(e) => Err(e)
  }

  lemma BehindStep(done: seq<Field>, fmt: string, args: seq<Arg>, f: Field, rest: string)
    requires fmt != [] && args != [] && FieldAt(fmt, args[0]) == Ok((f, rest))
    ensures Behind(done, Fields(fmt, args)) == Behind(done + [f], Fields(rest, args[1..]))
  {
    var r := Fields(rest, args[1..]);
    if r.Ok? {
      assert done + ([f] + r.value) == done + [f] + r.value;
    }
  }

  /** pack. */
  method Pack(fmt: string, args: seq<Arg>) returns (r: Result<seq<byte>>)
    ensures r == Packed(fmt, args)
  {
    var out: seq<byte> := [];
    var fmtLeft, argsLeft := fmt, args;
    ghost var all, done: seq<Field> := Fields(fmt, args), [];
    assert all.Ok? ==> [] + all.value == all.value;
    while fmtLeft != []
      invariant GoodFields(done) && out == Encoded(done)
      invariant all == Behind(done, Fields(fmtLeft, argsLeft))
      decreases |argsLeft|, |fmtLeft|
    {
      if argsLeft == [] {
        return Err(IndexError);
      }
      var one := PackOne(fmtLeft, argsLeft[0]);
      if one.Err? {
        return Err(one.error);
      }
      ghost var (f, rest) := FieldAt(fmtLeft, argsLeft[0]).value;
      EncodedSnoc(done, f);
      BehindStep(done, fmtLeft, argsLeft, f, rest);
      out := out + one.value.0;
      done := done + [f];
      fmtLeft, argsLeft := one.value.1, argsLeft[1..];
    }
    if argsLeft != [] {
      return Err(ValueError);
    }
    assert done + [] == done;
    r := Ok(out);
  }
}
