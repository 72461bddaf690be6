/** The RPC wire codec: integers and padded strings in a tag-length-value form of its own. */
module RpcCodec {
  import opened Bytes

  // The exceptions the Python code can raise here.
  datatype Error = IndexError | AssertionError | ValueError | StructError | KeyError | TypeError

  datatype Result<+T> = Ok(value: T) | Err(error: Error)

  datatype Value = Int(n: nat) | Str(payload: seq<byte>)

  // ----- lengths and integers as bytes

  function FromBe(s: seq<byte>): nat {
    if s == [] then 0 else 256 * FromBe(s[..|s| - 1]) + s[|s| - 1] as int
  }

  function FromLe(s: seq<byte>): nat {
    if s == [] then 0 else s[0] as int + 256 * FromLe(s[1..])
  }

  function Reverse(s: seq<byte>): (r: seq<byte>)
    ensures |r| == |s|
  {
    if s == [] then [] else Reverse(s[1..]) + [s[0]]
  }

  function MinimalBe(n: nat): seq<byte> {
    if n == 0 then [] else MinimalBe(n / 256) + [(n % 256) as byte]
  }

  function EncodedLength(n: nat): seq<byte>
    requires |MinimalBe(n)| <= 127
  {
    if n < 128 then [n as byte] else [(128 + |MinimalBe(n)|) as byte] + MinimalBe(n)
  }

  // The decoder's reading: at most 15 length bytes, least significant first.
  function LengthAt(data: seq<byte>): Result<(nat, seq<byte>)> {
    if data == [] then Err(IndexError)
    else if data[0] < 128 then Ok((data[0] as int, data[1..]))
    else
      var k := data[0] as int % 16;
      if |data| - 1 < k then Err(IndexError) else Ok((FromLe(data[1..1 + k]), data[1 + k..]))
  }

  predicate Palindromic(n: nat) {
    Reverse(MinimalBe(n)) == MinimalBe(n)
  }

  lemma {:induction false} LeIsReversedBe(s: seq<byte>)
    ensures FromLe(s) == FromBe(Reverse(s))
    decreases |s|
  {
    if s != [] {
      LeIsReversedBe(s[1..]);
      var r := Reverse(s);
      assert r[..|r| - 1] == Reverse(s[1..]);
    }
  }

  lemma {:induction false} BeInjective(a: seq<byte>, b: seq<byte>)
    requires |a| == |b| && FromBe(a) == FromBe(b)
    ensures a == b
    decreases |a|
  {
    if a != [] {
      var n := |a| - 1;
      BeInjective(a[..n], b[..n]);
      assert a == a[..n] + [a[n]] && b == b[..n] + [b[n]];
    }
  }

  lemma {:induction false} MinimalBeMeans(n: nat)
    ensures FromBe(MinimalBe(n)) == n
    ensures n > 0 ==> MinimalBe(n) != [] && MinimalBe(n)[0] != 0
  {
    if n > 0 {
      MinimalBeMeans(n / 256);
      var s := MinimalBe(n);
      assert s[..|s| - 1] == MinimalBe(n / 256);
    }
  }

  lemma {:induction false} MinimalBeSize(n: nat, k: nat, bound: nat)
    requires n < bound && bound == Pow256(k)
    ensures |MinimalBe(n)| <= k
    decreases k
  {
    if n > 0 {
      MinimalBeSize(n / 256, k - 1, bound / 256);
    }
  }

  function Pow256(k: nat): (p: nat)
    ensures p > 0
  {
    if k == 0 then 1 else 256 * Pow256(k - 1)
  }

  /** Sections 8.1.3.4 and 8.1.3.5 of ITU-T X.690: the short form below 128, else a minimal long form. */
  lemma LengthEncoding(n: nat)
    requires |MinimalBe(n)| <= 127
    ensures var e := EncodedLength(n);
      if n < 128 then e == [n as byte]
      else |e| >= 2 && e[0] as int == 128 + |e[1..]| && e[1] != 0 && FromBe(e[1..]) == n
  {
    MinimalBeMeans(n);
  }

  lemma LengthRead(n: nat, rest: seq<byte>)
    requires |MinimalBe(n)| <= 15
    ensures LengthAt(EncodedLength(n) + rest) == Ok((if n < 128 then n else FromLe(MinimalBe(n)), rest))
  {
    var m, d := MinimalBe(n), EncodedLength(n) + rest;
    if n >= 128 {
      assert d[1..1 + |m|] == m && d[1 + |m|..] == rest;
    } else {
      assert d[1..] == rest;
    }
  }

  lemma ReversedMeans(n: nat)
    ensures FromLe(MinimalBe(n)) == FromBe(Reverse(MinimalBe(n)))
    ensures FromLe(MinimalBe(n)) == n <==> Palindromic(n)
  {
    var m := MinimalBe(n);
    MinimalBeMeans(n);
    LeIsReversedBe(m);
    if FromBe(Reverse(m)) == n {
      BeInjective(Reverse(m), m);
    }
  }

  lemma SmallPalindromes(n: nat)
    ensures n < 256 || n == 257 ==> Palindromic(n)
  {
    if 0 < n < 256 {
      assert MinimalBe(0) == [];
      assert MinimalBe(n) == [n as byte];
      assert Reverse(MinimalBe(n)[1..]) == [];
    }
    if n == 257 {
      assert MinimalBe(1) == [1];
      assert MinimalBe(257) == [1, 1] && Reverse([1]) == [1];
    }
  }

  /** The decoder returns the byte reversal of a long-form length: it inverts the encoder exactly on lengths below 128
      and on those whose bytes read the same both ways, such as everything below 256, and 257. */
  lemma LengthRoundTrip(n: nat, rest: seq<byte>)
    requires |MinimalBe(n)| <= 15
    ensures n >= 128 ==> LengthAt(EncodedLength(n) + rest) == Ok((FromBe(Reverse(MinimalBe(n))), rest))
    ensures LengthAt(EncodedLength(n) + rest) == Ok((n, rest)) <==> n < 128 || Palindromic(n)
    ensures n < 256 || n == 257 ==> Palindromic(n)
  {
    LengthRead(n, rest);
    ReversedMeans(n);
    SmallPalindromes(n);
  }

  // ----- decoding

  // take_asn_int: a length byte that is never read as a long form, then the value.
  function IntAt(data: seq<byte>): (r: Result<(nat, seq<byte>)>)
    ensures r.Ok? ==> |r.value.1| < |data|
  {
    if data == [] then Err(IndexError)
    else if data[0] != 0x02 then Err(AssertionError)
    else if |data| < 2 || |data| - 2 < data[1] as int then Err(IndexError)
    else Ok((FromBe(data[2..2 + data[1] as int]), data[2 + data[1] as int..]))
  }

  predicate StringTag(t: byte) {
    t == 0x55 || t == 0x56 || t == 0x57
  }

  function ElemSize(t: byte): nat {
    if t == 0x56 then 2 else if t == 0x57 then 4 else 1
  }

  // What follows the length of a string of valid payload bytes.
  function PayloadAt(valid: nat, data: seq<byte>): (r: Result<(seq<byte>, seq<byte>)>)
    ensures r.Ok? ==> |r.value.1| < |data|
  {
    match IntAt(data)
    case Err(e) => Err(e)
    case Ok((count, data1)) =>
      match IntAt(data1)
      case Err(e) => Err(e)
      case Ok((padding, data2)) =>
        if count != 0 && count != valid + padding then Err(AssertionError)
        else if |data2| < valid + padding then Err(IndexError)
        else Ok((data2[..valid], data2[valid + padding..]))
  }

  function StringAt(data: seq<byte>): (r: Result<(seq<byte>, seq<byte>)>)
    ensures r.Ok? ==> |r.value.1| < |data|
  {
    if data == [] then Err(IndexError)
    else if !StringTag(data[0]) then Err(AssertionError)
    else
      match LengthAt(data[1..])
      case Err(e) => Err(e)
      case Ok((valid, rest)) => PayloadAt(valid * ElemSize(data[0]), rest)
  }

  // One value of the kind its own tag says.
  function ValueAt(data: seq<byte>): (r: Result<(Value, seq<byte>)>)
    requires data != []
    ensures r.Ok? ==> |r.value.1| < |data|
  {
    if data[0] == 0x02 then
      match IntAt(data) case Ok((n, rest)) => Ok((Int(n), rest)) case Err(e) => Err(e)
    else if StringTag(data[0]) then
      match StringAt(data) case Ok((s, rest)) => Ok((Str(s), rest)) case Err(e) => Err(e)
    else Err(ValueError)
  }

  function Prepend(v: seq<Value>, r: Result<seq<Value>>): Result<seq<Value>> {
    match r case Ok(vs) => Ok(v + vs) case Err(e) => Err(e)
  }

  // unpack_unknown: it ends on every input, as each value takes up some bytes.
  function Decoded(data: seq<byte>): Result<seq<Value>>
    decreases |data|
  {
    if data == [] then Ok([])
    else
      match ValueAt(data)
      case Err(e) => Err(e)
      case Ok((v, rest)) => Prepend([v], Decoded(rest))
  }

  // One value of the kind a format character asks for.
  function ValueOfKind(ch: char, data: seq<byte>): Result<(Value, seq<byte>)> {
    if ch == 'n' then
      match IntAt(data) case Ok((n, rest)) => Ok((Int(n), rest)) case Err(e) => Err(e)
    else if ch == 's' then
      match StringAt(data) case Ok((s, rest)) => Ok((Str(s), rest)) case Err(e) => Err(e)
    else Err(ValueError)
  }

  // unpack: bytes beyond the format are ignored.
  function DecodedAs(fmt: string, data: seq<byte>): Result<seq<Value>>
    decreases |fmt|
  {
    if fmt == [] then Ok([])
    else
      match ValueOfKind(fmt[0], data)
      case Err(e) => Err(e)
      case Ok((v, rest)) => Prepend([v], DecodedAs(fmt[1..], rest))
  }

  function Kind(v: Value): char {
    if v.Int? then 'n' else 's'
  }

  function Kinds(vs: seq<Value>): (s: string)
    ensures |s| == |vs|
  {
    seq(|vs|, i requires 0 <= i < |vs| => Kind(vs[i]))
  }

  lemma IntAtPrefix(a: seq<byte>, b: seq<byte>)
    requires IntAt(a).Ok?
    ensures IntAt(a + b) == Ok((IntAt(a).value.0, IntAt(a).value.1 + b))
  {
    var k := a[1] as int;
    assert (a + b)[2..2 + k] == a[2..2 + k] && (a + b)[2 + k..] == a[2 + k..] + b;
  }

  lemma LengthAtPrefix(a: seq<byte>, b: seq<byte>)
    requires LengthAt(a).Ok?
    ensures LengthAt(a + b) == Ok((LengthAt(a).value.0, LengthAt(a).value.1 + b))
  {
    if a[0] < 128 {
      assert (a + b)[1..] == a[1..] + b;
    } else {
      var k := a[0] as int % 16;
      assert (a + b)[1..1 + k] == a[1..1 + k] && (a + b)[1 + k..] == a[1 + k..] + b;
    }
  }

  lemma PayloadAtPrefix(valid: nat, a: seq<byte>, b: seq<byte>)
    requires PayloadAt(valid, a).Ok?
    ensures PayloadAt(valid, a + b) == Ok((PayloadAt(valid, a).value.0, PayloadAt(valid, a).value.1 + b))
  {
    IntAtPrefix(a, b);
    var a1 := IntAt(a).value.1;
    IntAtPrefix(a1, b);
    var padding, a2 := IntAt(a1).value.0, IntAt(a1).value.1;
    assert (a2 + b)[..valid] == a2[..valid] && (a2 + b)[valid + padding..] == a2[valid + padding..] + b;
  }

  lemma StringAtPrefix(a: seq<byte>, b: seq<byte>)
    requires StringAt(a).Ok?
    ensures StringAt(a + b) == Ok((StringAt(a).value.0, StringAt(a).value.1 + b))
  {
    assert (a + b)[1..] == a[1..] + b;
    LengthAtPrefix(a[1..], b);
    PayloadAtPrefix(LengthAt(a[1..]).value.0 * ElemSize(a[0]), LengthAt(a[1..]).value.1, b);
  }

  lemma ValueAtPrefix(a: seq<byte>, b: seq<byte>)
    requires a != [] && ValueAt(a).Ok?
    ensures ValueAt(a + b) == Ok((ValueAt(a).value.0, ValueAt(a).value.1 + b))
  {
    if a[0] == 0x02 {
      IntAtPrefix(a, b);
    } else {
      StringAtPrefix(a, b);
    }
  }

  lemma DecodedStep(data: seq<byte>, v: Value, rest: seq<byte>)
    requires data != [] && ValueAt(data) == Ok((v, rest))
    ensures Decoded(data) == Prepend([v], Decoded(rest))
  {}

  lemma PrependConcat(a: seq<Value>, b: seq<Value>, r: Result<seq<Value>>)
    ensures Prepend(a, Prepend(b, r)) == Prepend(a + b, r)
  {
    if r.Ok? {
      assert a + (b + r.value) == a + b + r.value;
    }
  }

  /** Decoding distributes over concatenation behind a body it accepts, failures included. */
  lemma {:induction false} DecodedConcat(a: seq<byte>, b: seq<byte>)
    requires Decoded(a).Ok?
    ensures Decoded(a + b) == Prepend(Decoded(a).value, Decoded(b))
    decreases |a|
  {
    if a == [] {
      assert a + b == b;
      assert Decoded(b).Ok? ==> [] + Decoded(b).value == Decoded(b).value;
    } else {
      var (v, rest) := ValueAt(a).value;
      ValueAtPrefix(a, b);
      DecodedStep(a, v, rest);
      DecodedStep(a + b, v, rest + b);
      DecodedConcat(rest, b);
      PrependConcat([v], Decoded(rest).value, Decoded(b));
    }
  }

  lemma KindAsks(fmt: string, data: seq<byte>)
    requires data != [] && ValueAt(data).Ok? && fmt != []
    ensures var (v, rest) := ValueAt(data).value;
      if fmt[0] == Kind(v) then ValueOfKind(fmt[0], data) == Ok((v, rest)) else ValueOfKind(fmt[0], data).Err?
  {}

  lemma KindsPrefix(fmt: string, v: Value, ws: seq<Value>)
    requires fmt != []
    ensures fmt <= Kinds([v] + ws) <==> fmt[0] == Kind(v) && fmt[1..] <= Kinds(ws)
    ensures fmt[1..] <= Kinds(ws) ==> [v] + ws[..|fmt| - 1] == ([v] + ws)[..|fmt|]
  {
    assert Kinds([v] + ws) == [Kind(v)] + Kinds(ws);
    assert fmt == [fmt[0]] + fmt[1..];
    if fmt <= Kinds([v] + ws) {
      assert fmt[1..] == Kinds([v] + ws)[..|fmt|][1..] == Kinds(ws)[..|fmt| - 1];
    }
  }

  /** On a body the schema-less decoder accepts, a format succeeds exactly if it is a prefix of the kinds met, and
      then gives the matching prefix of the values. */
  lemma {:induction false} FormatIsPrefix(fmt: string, data: seq<byte>)
    requires Decoded(data).Ok?
    ensures var vs := Decoded(data).value;
      && (DecodedAs(fmt, data).Ok? <==> fmt <= Kinds(vs))
      && (fmt <= Kinds(vs) ==> DecodedAs(fmt, data) == Ok(vs[..|fmt|]))
    decreases |fmt|
  {
    if fmt == [] {
    } else if data == [] {
      assert Kinds([]) == [];
    } else {
      var (v, rest) := ValueAt(data).value;
      DecodedStep(data, v, rest);
      KindAsks(fmt, data);
      KindsPrefix(fmt, v, Decoded(rest).value);
      FormatIsPrefix(fmt[1..], rest);
    }
  }
}
