/** Bytes and the fixed-width integer encodings shared by the drivers. */
module Bytes {

  newtype byte = x: int | 0 <= x < 256

  datatype Option<+T> = None | Some(value: T)

  // A C store into a narrower field truncates; so do these encoders.

  function Le16(n: nat): (s: seq<byte>)
    ensures |s| == 2
  {
    [(n % 256) as byte, (n / 256 % 256) as byte]
  }

  function Le32(n: nat): (s: seq<byte>)
    ensures |s| == 4
  {
    [(n % 256) as byte, (n / 256 % 256) as byte, (n / 65536 % 256) as byte, (n / 16777216 % 256) as byte]
  }

  function Be32(n: nat): (s: seq<byte>)
    ensures |s| == 4
  {
    [(n / 16777216 % 256) as byte, (n / 65536 % 256) as byte, (n / 256 % 256) as byte, (n % 256) as byte]
  }

  function FromLe16(s: seq<byte>): (n: nat)
    requires |s| == 2
  {
    s[0] as int + 256 * (s[1] as int)
  }

  // The same, read in place.
  function Get16(s: seq<byte>, at: nat): nat
    requires at + 2 <= |s|
  {
    s[at] as int + 256 * (s[at + 1] as int)
  }

  function Get32(s: seq<byte>, at: nat): nat
    requires at + 4 <= |s|
  {
    s[at] as int + 256 * (s[at + 1] as int) + 65536 * (s[at + 2] as int) + 16777216 * (s[at + 3] as int)
  }

  function FromLe32(s: seq<byte>): (n: nat)
    requires |s| == 4
  {
    s[0] as int + 256 * (s[1] as int) + 65536 * (s[2] as int) + 16777216 * (s[3] as int)
  }

  function FromBe32(s: seq<byte>): (n: nat)
    requires |s| == 4
  {
    s[3] as int + 256 * (s[2] as int) + 65536 * (s[1] as int) + 16777216 * (s[0] as int)
  }

  lemma ByteDigits(n: nat)
    ensures n % 0x1_0000 == n % 256 + 256 * (n / 256 % 256)
    ensures n % 0x1_0000_0000 ==
            n % 256 + 256 * (n / 256 % 256) + 65536 * (n / 65536 % 256) + 16777216 * (n / 16777216 % 256)
  {
    var a, b, c, d := n / 256, n / 65536, n / 16777216, n / 4294967296;
    assert a / 256 == b && b / 256 == c && c / 256 == d;
  }

  lemma Le16RoundTrip(n: nat)
    requires n < 0x1_0000
    ensures FromLe16(Le16(n)) == n
  {
    ByteDigits(n);
  }

  lemma Le32RoundTrip(n: nat)
    requires n < 0x1_0000_0000
    ensures FromLe32(Le32(n)) == n
  {
    ByteDigits(n);
  }

  lemma Be32RoundTrip(n: nat)
    requires n < 0x1_0000_0000
    ensures FromBe32(Be32(n)) == n
  {
    ByteDigits(n);
  }

  function Zeros(n: nat): (s: seq<byte>)
    ensures |s| == n
    ensures forall i :: 0 <= i < n ==> s[i] == 0
  {
    seq(n, _ => 0)
  }

  function Min(a: int, b: int): int {
    if a < b then a else b
  }

  function NonEmpty(ss: seq<seq<byte>>): seq<seq<byte>> {
    if ss == [] then [] else (if ss[0] == [] then [] else [ss[0]]) + NonEmpty(ss[1..])
  }

  lemma ConcatAssociates(a: seq<seq<byte>>, b: seq<seq<byte>>, c: seq<seq<byte>>)
    ensures a + (b + c) == a + b + c
  {}
}
