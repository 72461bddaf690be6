/** The frames that go to the modem, byte by byte. */
module WireBytes {
  import opened Bytes
  import opened MuxChain
  import opened MuxFrame
  import opened MuxDecode

  // A number in its bytes, least significant first.
  ghost predicate Two(b: seq<byte>, at: nat, n: nat)
    requires at + 2 <= |b|
  {
    b[at] as int == n % 256 && b[at + 1] as int == n / 256 % 256
  }

  ghost predicate Four(b: seq<byte>, at: nat, n: nat)
    requires at + 4 <= |b|
  {
    Two(b, at, n) && b[at + 2] as int == n / 65536 % 256 && b[at + 3] as int == n / 16777216 % 256
  }

  lemma TwoAt(b: seq<byte>, at: nat, end: nat, n: nat)
    requires end == at + 2 <= |b| && b[at..end] == Le16(n)
    ensures Two(b, at, n)
  {
    assert b[at] == b[at..end][0] && b[at + 1] == b[at..end][1];
  }

  lemma FourAt(b: seq<byte>, at: nat, end: nat, n: nat)
    requires end == at + 4 <= |b| && b[at..end] == Le32(n)
    ensures Four(b, at, n)
  {
    assert b[at] == b[at..end][0] && b[at + 1] == b[at..end][1];
    assert b[at + 2] == b[at..end][2] && b[at + 3] == b[at..end][3];
  }

  // The 16 bytes of a first header.
  ghost predicate FirstHeader(b: seq<byte>, name: seq<byte>, seqno: nat, length: nat, next: nat) {
    && |b| >= 16 && b[0..4] == name && b[4] == b[5] == 0 && Two(b, 6, seqno) && Two(b, 8, length)
    && b[10] == b[11] == 0 && Four(b, 12, next)
  }

  // The 12 bytes of a last header, at o.
  ghost predicate LastHeader(b: seq<byte>, o: nat, name: seq<byte>, length: nat, channel: nat) {
    && |b| >= o + 12 && b[o..o + 4] == name && Two(b, o + 4, length) && Two(b, o + 6, channel) && Four(b, o + 8, 0)
  }

  lemma FirstIs(b: seq<byte>, h: Heading, tags: seq<Tag>, offs: seq<nat>, next: nat)
    requires Chain(b, h, tags, offs) && h.extra == 0 && next == NextOf(offs, 0)
    ensures FirstHeader(b, tags[0].name, h.seqno, h.length, next)
  {
    assert SectionAt(b, h, tags, offs, 0);
    var s := Header(h, tags, 0, next);
    assert s == tags[0].name + Le16(0) + Le16(h.seqno) + Le16(h.length) + Le16(0) + Le32(next);
    assert forall i :: 0 <= i < 16 ==> b[i] == b[0..16][i];
    assert b[0..4] == s[0..4];
  }

  lemma LastIs(b: seq<byte>, h: Heading, tags: seq<Tag>, offs: seq<nat>, o: nat, length: nat)
    requires Chain(b, h, tags, offs) && |tags| == 2 && o == offs[1] && length == 12 + |tags[1].payload|
    ensures LastHeader(b, o, tags[1].name, length, tags[1].extra)
    ensures o + length == |b| && b[o + 12..] == tags[1].payload
  {
    assert SectionAt(b, h, tags, offs, 1);
    var s := Header(h, tags, 1, 0);
    assert s == tags[1].name + Le16(length) + Le16(tags[1].extra) + Le32(0);
    assert s[0..4] == tags[1].name && s[4..6] == Le16(length) && s[6..8] == Le16(tags[1].extra) && s[8..12] == Le32(0);
    SliceFrom(b, o, o + 12, s, 0, 4, o, o + 4);
    SliceFrom(b, o, o + 12, s, 4, 6, o + 4, o + 6);
    SliceFrom(b, o, o + 12, s, 6, 8, o + 6, o + 8);
    SliceFrom(b, o, o + 12, s, 8, 12, o + 8, o + 12);
    TwoAt(b, o + 4, o + 6, length);
    TwoAt(b, o + 6, o + 8, tags[1].extra);
    FourAt(b, o + 8, o + 12, 0);
  }

  // Where packet i of a frame starts, behind its 16 zero bytes; the packets follow one another from byte 16 on.
  function PacketAt(ps: seq<seq<byte>>, i: nat): nat
    requires i <= |ps|
  {
    if i == 0 then 32 else PacketAt(ps, i - 1) + |ps[i - 1]| + 16
  }

  lemma {:induction false} BodyLength(ps: seq<seq<byte>>, i: nat)
    requires i <= |ps|
    ensures 32 + |Body(ps[..i])| == PacketAt(ps, i)
  {
    if i > 0 {
      BodyLength(ps, i - 1);
      assert ps[..i][..i - 1] == ps[..i - 1];
      BodyLast(ps[..i], i - 1, Zeros(16) + ps[i - 1], |Body(ps[..i - 1])|);
    }
  }

  // Packet i in its place, and its entry in the table of the ADTH section at o.
  ghost predicate PacketWritten(b: seq<byte>, ps: seq<seq<byte>>, o: nat, i: nat)
    requires i < |ps|
  {
    var at, t := PacketAt(ps, i), o + 16;
    && at >= 16 && at + |ps[i]| <= |b| && b[at - 16..at] == Zeros(16) && b[at..at + |ps[i]|] == ps[i]
    && t + 8 * i + 8 <= |b| && Four(b, t + 8 * i, at - 16) && Four(b, t + 8 * i + 4, 16 + |ps[i]|)
  }

  lemma PacketIs(b: seq<byte>, ps: seq<seq<byte>>, o: nat, i: nat)
    requires Layout(b, ps, o) && i < |ps|
    ensures PacketWritten(b, ps, o, i)
  {
    var e, c, at := TableOf(ps)[i], Zeros(16) + ps[i], PacketAt(ps, i);
    BodyLength(ps, i);
    TableAt(ps, i);
    FrameRegion(b, ps, o, i, e, c, e.offset + e.length);
    SliceFrom(b, at - 16, at + |ps[i]|, c, 0, 16, at - 16, at);
    SliceFrom(b, at - 16, at + |ps[i]|, c, 16, |c|, at, at + |ps[i]|);
    var lo := o + 16 + 8 * i;
    EntryBehind(b, o + 12, Le32(0), TableOf(ps), i, 8 * i, lo, lo + 8);
    EntryFields(e.offset, e.length);
    SliceFrom(b, lo, lo + 8, EntryBytes(e), 0, 4, lo, lo + 4);
    SliceFrom(b, lo, lo + 8, EntryBytes(e), 4, 8, lo + 4, lo + 8);
    FourAt(b, lo, lo + 4, e.offset);
    FourAt(b, lo + 4, lo + 8, e.length);
  }

  // Where the packets end, and the next multiple of 4.
  function Trailer(ps: seq<seq<byte>>): (o: nat) {
    (PacketAt(ps, |ps|) - 16 + 3) / 4 * 4
  }

  lemma TrailerIsAdth(ps: seq<seq<byte>>)
    ensures Trailer(ps) == AdthOffset(ps)
  {
    assert ps[..|ps|] == ps;
    BodyLength(ps, |ps|);
  }

  lemma PacketsWritten(b: seq<byte>, ps: seq<seq<byte>>, o: nat)
    requires Layout(b, ps, o)
    ensures |b| == o + 16 + 8 * |ps| && Four(b, o + 12, 0)
    ensures forall i :: 0 <= i < |ps| ==> PacketWritten(b, ps, o, i)
  {
    FourZeros(b, o + 12, TableBytes(TableOf(ps)));
    forall i | 0 <= i < |ps| ensures PacketWritten(b, ps, o, i) {
      PacketIs(b, ps, o, i);
    }
  }

  // Every byte outside the alignment gap: first header, packets behind 16 zero bytes each, ADTH header at the next
  // multiple of 4, four zero bytes, and the table of offsets and lengths.
  ghost predicate Written(b: seq<byte>, seqno: nat, channel: nat, ps: seq<seq<byte>>, o: nat) {
    && |b| == o + 16 + 8 * |ps|
    && FirstHeader(b, [0x41, 0x44, 0x42, 0x48], seqno, |b|, o)
    && LastHeader(b, o, [0x41, 0x44, 0x54, 0x48], 16 + 8 * |ps|, channel) && Four(b, o + 12, 0)
    && forall i :: 0 <= i < |ps| ==> PacketWritten(b, ps, o, i)
  }

  /** An uplink frame, byte by byte. */
  lemma FrameBytes(b: seq<byte>, seqno: nat, channel: nat, ps: seq<seq<byte>>)
    requires NetFrame(b, seqno, channel, ps)
    ensures Written(b, seqno, channel, ps, Trailer(ps))
  {
    TrailerIsAdth(ps);
    FrameLayout(b, seqno, channel, ps);
    PacketsWritten(b, ps, AdthOffset(ps));
    FrameHeaders(b, seqno, channel, ps, AdthOffset(ps), |b|, 16 + 8 * |ps|);
  }

  lemma FrameHeaders(b: seq<byte>, seqno: nat, channel: nat, ps: seq<seq<byte>>, o: nat, size: nat, length: nat)
    requires NetFrame(b, seqno, channel, ps) && o == AdthOffset(ps) && size == |b| && length == 16 + 8 * |ps|
    ensures FirstHeader(b, [0x41, 0x44, 0x42, 0x48], seqno, size, o)
    ensures LastHeader(b, o, [0x41, 0x44, 0x54, 0x48], length, channel)
  {
    var h, tags, offs := Heading(seqno, size, 0), FrameTags(channel, ps), [0, o];
    FirstIs(b, h, tags, offs, o);
    LastIs(b, h, tags, offs, o, length);
  }

  lemma FourZeros(b: seq<byte>, at: nat, rest: seq<byte>)
    requires at <= |b| && b[at..|b|] == Le32(0) + rest
    ensures at + 4 <= |b| && Four(b, at, 0)
  {
    assert (Le32(0) + rest)[0..4] == Le32(0);
    SliceFrom(b, at, |b|, Le32(0) + rest, 0, 4, at, at + 4);
    FourAt(b, at, at + 4, 0);
  }

  /** Every byte of the control message: two headers and the numbers 1, 0, 0, 0. */
  lemma ControlBytes(b: seq<byte>, seqno: nat, channel: nat)
    requires ControlFrame(b, seqno, channel)
    ensures |b| == 44 && FirstHeader(b, [0x41, 0x43, 0x42, 0x48], seqno, 44, 16)
    ensures LastHeader(b, 16, [0x43, 0x4d, 0x44, 0x48], 28, channel)
    ensures b[28..] == [1, 0, 0, 0, 0, 0, 0, 0, 0, 0, 0, 0, 0, 0, 0, 0]
  {
    var command := Le32(1) + Le32(0) + Le32(0) + Le32(0);
    var tags := [Tag(ACBH, 0, []), Tag(CMDH, channel, command)];
    LastIs(b, Heading(seqno, |b|, 0), tags, [0, 16], 16, 28);
    FirstIs(b, Heading(seqno, |b|, 0), tags, [0, 16], 16);
    assert command == [1, 0, 0, 0, 0, 0, 0, 0, 0, 0, 0, 0, 0, 0, 0, 0];
  }
}
