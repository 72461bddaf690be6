/** The frame builder of the kernel driver and of its userspace sibling: one buffer, patched in place. */
module MuxFrame {
  import opened Bytes
  import opened MuxChain

  const MUX_MAX_PACKETS := 64

  datatype Bounds = Bounds(offset: nat, length: nat)

  // What a frame carries: each packet behind 16 zero bytes, and the table of where it went.

  function Body(ps: seq<seq<byte>>): seq<byte>
    decreases |ps|
  {
    if ps == [] then [] else Body(ps[..|ps| - 1]) + (Zeros(16) + ps[|ps| - 1])
  }

  function TableOf(ps: seq<seq<byte>>): (t: seq<Bounds>)
    ensures |t| == |ps|
    decreases |ps|
  {
    if ps == [] then []
    else
      var n := |ps| - 1;
      TableOf(ps[..n]) + [Bounds(16 + |Body(ps[..n])|, 16 + |ps[n]|)]
  }

  function TableBytes(t: seq<Bounds>): (s: seq<byte>)
    ensures |s| == 8 * |t|
    decreases |t|
  {
    if t == [] then []
    else
      var n := |t| - 1;
      TableBytes(t[..n]) + (Le32(t[n].offset) + Le32(t[n].length))
  }

  function FrameTags(channel: nat, ps: seq<seq<byte>>): seq<Tag> {
    [Tag(ADBH, 0, Body(ps)), Tag(ADTH, channel, Le32(0) + TableBytes(TableOf(ps)))]
  }

  function AdthOffset(ps: seq<seq<byte>>): nat {
    Align4(16 + |Body(ps)|)
  }

  function FrameSize(ps: seq<seq<byte>>): nat {
    AdthOffset(ps) + 16 + 8 * |ps|
  }

  /** b is a complete uplink frame carrying exactly ps. */
  ghost predicate NetFrame(b: seq<byte>, seqno: nat, channel: nat, ps: seq<seq<byte>>) {
    Chain(b, Heading(seqno, |b|, 0), FrameTags(channel, ps), [0, AdthOffset(ps)])
  }

  // The control message that starts the connection.
  ghost predicate ControlFrame(b: seq<byte>, seqno: nat, channel: nat) {
    Chain(b, Heading(seqno, |b|, 0),
          [Tag(ACBH, 0, []), Tag(CMDH, channel, Le32(1) + Le32(0) + Le32(0) + Le32(0))], [0, 16])
  }

  lemma ControlSize(b: seq<byte>, seqno: nat, channel: nat)
    requires ControlFrame(b, seqno, channel)
    ensures |b| == 44
  {}

  // Two sections, as bytes.
  lemma TwoSections(h: Heading, body: Tag, table: Tag, o: nat) returns (b: seq<byte>)
    requires |body.name| == |table.name| == 4 && o == Align4(16 + |body.payload|)
    ensures Chain(b, h, [body, table], [0, o]) && |b| == o + 12 + |table.payload|
  {
    ChainOfOne(h, body);
    var first := Header(h, [body], 0, 0) + body.payload;
    var gap := Zeros(o - |first|);
    ChainExtend(first, h, [body], [0], gap, table);
    assert [body] + [table] == [body, table] && [0] + [o] == [0, o];
    b := Splice(first, NextPos([0]), Le32(o)) + (gap + (Header(h, [body, table], 1, 0) + table.payload));
  }

  /** There is a frame for every list of packets. */
  lemma FrameExists(seqno: nat, channel: nat, ps: seq<seq<byte>>) returns (b: seq<byte>)
    ensures NetFrame(b, seqno, channel, ps) && |b| == FrameSize(ps)
  {
    var body, table := Tag(ADBH, 0, Body(ps)), Tag(ADTH, channel, Le32(0) + TableBytes(TableOf(ps)));
    b := TwoSections(Heading(seqno, FrameSize(ps), 0), body, table, AdthOffset(ps));
  }

  lemma BodySnoc(ps: seq<seq<byte>>, p: seq<byte>)
    ensures Body(ps + [p]) == Body(ps) + (Zeros(16) + p)
  {
    assert (ps + [p])[..|ps|] == ps;
  }

  lemma TableSnoc(ps: seq<seq<byte>>, p: seq<byte>)
    ensures TableOf(ps + [p]) == TableOf(ps) + [Bounds(16 + |Body(ps)|, 16 + |p|)]
  {
    var qs := ps + [p];
    assert qs != [] && qs[..|qs| - 1] == ps && qs[|qs| - 1] == p;
  }

  lemma SplicePrefix(b: seq<byte>, pos: nat, v: seq<byte>, n: nat)
    requires pos + |v| <= n <= |b|
    ensures Splice(b, pos, v)[..n] == Splice(b[..n], pos, v)
  {}

  lemma SpliceAppend(b: seq<byte>, n: nat, v: seq<byte>, end: nat)
    requires end == n + |v| <= |b|
    ensures Splice(b, n, v)[..end] == b[..n] + v
  {}

  lemma SpliceNothing(b: seq<byte>, pos: nat, v: seq<byte>)
    requires pos <= |b| && v == []
    ensures Splice(b, pos, v) == b
  {}

  lemma SpliceTwice(b: seq<byte>, pos: nat, v: seq<byte>, w: seq<byte>, at: nat)
    requires pos + |v| <= |b| && at + |w| <= |v|
    ensures Splice(Splice(b, pos, v), pos + at, w) == Splice(b, pos, Splice(v, at, w))
  {}

  // The fields stored one by one into a cleared header.
  function Stored(first: bool, name: seq<byte>, sequence: nat, length: nat, extra: nat): (s: seq<byte>)
    requires |name| == 4
    ensures |s| == HeaderLen(first)
  {
    var cleared := Splice(Zeros(HeaderLen(first)), 0, name);
    if first then Splice(Splice(Splice(cleared, 6, Le16(sequence)), 8, Le16(length)), 10, Le16(extra))
    else Splice(Splice(cleared, 4, Le16(length)), 6, Le16(extra))
  }

  lemma StoredIsHeader(h: Heading, tags: seq<Tag>, k: nat)
    requires k < |tags| && |tags[k].name| == 4
    ensures Stored(k == 0, tags[k].name, h.seqno, if k == 0 then h.length else 12 + |tags[k].payload|,
                   if k == 0 then h.extra else tags[k].extra) == Header(h, tags, k, 0)
  {
    var name := tags[k].name;
    if k == 0 {
      var a := Splice(Zeros(16), 0, name);
      assert a == name + Le16(0) + Zeros(10);
      var b := Splice(a, 6, Le16(h.seqno));
      assert b == name + Le16(0) + Le16(h.seqno) + Zeros(8);
      var c := Splice(b, 8, Le16(h.length));
      assert c == name + Le16(0) + Le16(h.seqno) + Le16(h.length) + Zeros(6);
      assert Splice(c, 10, Le16(h.extra)) == name + Le16(0) + Le16(h.seqno) + Le16(h.length) + Le16(h.extra) + Le32(0);
    } else {
      var length := Le16(12 + |tags[k].payload|);
      var a := Splice(Zeros(12), 0, name);
      assert a == name + Zeros(8);
      var b := Splice(a, 4, length);
      assert b == name + length + Zeros(6);
      assert Splice(b, 6, Le16(tags[k].extra)) == name + length + Le16(tags[k].extra) + Le32(0);
    }
  }

  lemma SpliceThenTwo(b: seq<byte>, n: nat, pos: nat, v: seq<byte>, o: nat, hdr: seq<byte>, payload: seq<byte>,
                      mid: nat, end: nat)
    requires pos + |v| <= n <= o && mid == o + |hdr| && end == mid + |payload| <= |b|
    ensures Splice(Splice(Splice(b, pos, v), o, hdr), mid, payload)[..end]
         == Splice(b[..n], pos, v) + (b[n..o] + (hdr + payload))
  {
    var x := Splice(b, pos, v);
    SpliceAppend(x, o, hdr, mid);
    SpliceAppend(Splice(x, o, hdr), mid, payload, end);
    SplicePrefix(b, pos, v, n);
    SpliceApart(b, pos, v, n, o);
    assert x[..o] == x[..n] + x[n..o];
  }

  lemma ChainSize(b: seq<byte>, h: Heading, tags: seq<Tag>, offs: seq<nat>)
    requires Chain(b, h, tags, offs)
    ensures 8 <= LengthPos(offs) && NextPos(offs) + 4 <= |b| && LengthPos(offs) + 4 == NextPos(offs)
  {
    var n := |tags| - 1;
    assert n > 0 ==> Abuts(tags, offs, n - 1);
  }

  lemma SpliceNarrow(b: seq<byte>, at: nat, end: nat, v: seq<byte>, w: seq<byte>)
    requires end == at + 4 <= |b| && b[at..end] == Le32(0) && |v| == 2 && w == v + [0, 0]
    ensures Splice(b, at, v) == Splice(b, at, w)
  {
    assert b[at + 2] == b[at..end][2] && b[at + 3] == b[at..end][3];
  }

  /** The kernel's 16-bit next field and pad are the 32-bit next field of userspace. */
  lemma NarrowNext(b: seq<byte>, h: Heading, tags: seq<Tag>, offs: seq<nat>, v: nat)
    requires Chain(b, h, tags, offs) && v < 0x1_0000
    ensures NextPos(offs) + 4 <= |b|
    ensures Splice(b, NextPos(offs), Le16(v)) == Splice(b, NextPos(offs), Le32(v))
  {
    var n := |tags| - 1;
    assert SectionAt(b, h, tags, offs, n);
    var body := Data(offs, n);
    var s := Header(h, tags, n, 0);
    assert s[|s| - 4..|s|] == Le32(0);
    SliceFrom(b, offs[n], body, s, |s| - 4, |s|, body - 4, body);
    SpliceNarrow(b, body - 4, body, Le16(v), Le32(v));
  }

  class FrameBuilder {
    const maxPackets: nat
    const wide: bool
    const data: array<byte>
    const bounds: array<Bounds>
    var nPackets: nat
    var nBytes: nat
    var maxSize: nat
    var sequence: nat
    // Saved pointers into data; None is NULL.
    var lastTagLength: Option<nat>
    var lastTagNext: Option<nat>

    ghost var tags: seq<Tag>
    ghost var offs: seq<nat>
    ghost var head: Heading

    ghost predicate Sized()
      reads this
    {
      bounds.Length == maxPackets && nPackets <= maxPackets && maxSize <= data.Length && maxSize < 0x1_0000
    }

    // The buffer holds a chain, and the saved pointers point into its last header.
    ghost predicate Linked()
      reads this, data
    {
      && Sized() && nBytes <= maxSize
      && if tags == [] then nBytes == 0 && lastTagLength == None && lastTagNext == None
         else
           && Chain(data[..nBytes], head, tags, offs)
           && lastTagLength == Some(LengthPos(offs)) && lastTagNext == Some(NextPos(offs))
    }

    constructor (maxPackets: nat, wide: bool, size: nat)
      ensures Sized() && this.maxPackets == maxPackets && this.wide == wide
      ensures maxSize == nPackets == nBytes == 0 && data.Length == size && fresh(data) && fresh(bounds)
    {
      this.maxPackets, this.wide := maxPackets, wide;
      data := new byte[size];
      bounds := new Bounds[maxPackets](_ => Bounds(0, 0));
      nPackets, nBytes, maxSize, sequence := 0, 0, 0, 0;
      lastTagLength, lastTagNext := None, None;
      tags, offs, head := [], [], Heading(0, 0, 0);
    }

    method Init(maxSize: nat, sequence: nat)
      requires bounds.Length == maxPackets && maxSize <= data.Length && maxSize < 0x1_0000
      modifies this
      ensures Linked() && tags == [] && nPackets == 0
      ensures this.maxSize == maxSize && this.sequence == sequence
    {
      this.sequence, this.maxSize := sequence, maxSize;
      nPackets, nBytes := 0, 0;
      lastTagLength, lastTagNext := None, None;
      tags, offs := [], [];
    }

    // memcpy into the buffer.
    method Put(pos: nat, v: seq<byte>)
      requires pos + |v| <= data.Length
      modifies data
      ensures data[..] == Splice(old(data[..]), pos, v)
    {
      for i := 0 to |v|
        invariant data[..] == Splice(old(data[..]), pos, v[..i])
      {
        data[pos + i] := v[i];
        assert data[..] == Splice(old(data[..]), pos, v[..i + 1]);
      }
      assert v[..|v|] == v;
    }

    method PutHeader(first: bool, name: seq<byte>, length: nat, extra: nat)
      requires |name| == 4 && nBytes + HeaderLen(first) <= data.Length
      modifies data
      ensures data[..] == Splice(old(data[..]), nBytes, Stored(first, name, sequence, length, extra))
    {
      ghost var b := data[..];
      var at := if first then 8 else 4;
      Put(nBytes, Zeros(HeaderLen(first)));
      ghost var s := Zeros(HeaderLen(first));
      Put(nBytes, name);
      SpliceTwice(b, nBytes, s, name, 0);
      s := Splice(s, 0, name);
      if first {
        Put(nBytes + 6, Le16(sequence));
        SpliceTwice(b, nBytes, s, Le16(sequence), 6);
        s := Splice(s, 6, Le16(sequence));
      }
      Put(nBytes + at, Le16(length));
      SpliceTwice(b, nBytes, s, Le16(length), at);
      s := Splice(s, at, Le16(length));
      Put(nBytes + at + 2, Le16(extra));
      SpliceTwice(b, nBytes, s, Le16(extra), at + 2);
    }

    method AlignUp()
      modifies this`nBytes
      ensures nBytes == Align4(old(nBytes))
    {
      while nBytes % 4 != 0
        invariant old(nBytes) <= nBytes <= Align4(old(nBytes))
        decreases Align4(old(nBytes)) - nBytes
      {
        nBytes := nBytes + 1;
      }
    }

    // Storing the new offset through last_tag_next.
    method Relink()
      requires Sized() && (lastTagNext.Some? ==> lastTagNext.value + 4 <= data.Length)
      modifies data
      ensures data[..] == Relinked(old(data[..]), lastTagNext, nBytes)
    {
      if lastTagNext.Some? {
        Put(lastTagNext.value, if wide then Le32(nBytes) else Le16(nBytes));
      }
    }

    function Relinked(b: seq<byte>, at: Option<nat>, offset: nat): (r: seq<byte>)
      requires at.Some? ==> at.value + 4 <= |b|
      ensures |r| == |b|
    {
      match at
      case None => b
      case Some(pos) => Splice(b, pos, if wide then Le32(offset) else Le16(offset))
    }

    lemma RelinkedThenTwo(b: seq<byte>, at: Option<nat>, n: nat, o: nat, hdr: seq<byte>, payload: seq<byte>,
                          mid: nat, end: nat)
      requires at.Some? ==> at.value + 4 <= n
      requires n <= o && mid == o + |hdr| && end == mid + |payload| <= |b|
      ensures Splice(Splice(Relinked(b, at, o), o, hdr), mid, payload)[..end]
           == Relinked(b[..n], at, o) + (b[n..o] + (hdr + payload))
    {
      match at
      case None =>
        SpliceThenTwo(b, n, 0, [], o, hdr, payload, mid, end);
        assert Splice(b, 0, []) == b && Splice(b[..n], 0, []) == b[..n];
      case Some(pos) =>
        SpliceThenTwo(b, n, pos, if wide then Le32(o) else Le16(o), o, hdr, payload, mid, end);
    }

    // The stores of AddTag: link, header, data.
    method Store(first: bool, name: seq<byte>, extra: nat, payload: seq<byte>, length: nat, ghost mid: nat)
      requires Sized() && |name| == 4 && mid == nBytes + HeaderLen(first) && mid + |payload| <= data.Length
      requires lastTagNext.Some? ==> lastTagNext.value + 4 <= data.Length
      modifies data
      ensures data[..] == Splice(Splice(Relinked(old(data[..]), lastTagNext, nBytes),
                                        nBytes, Stored(first, name, sequence, length, extra)), mid, payload)
    {
      Relink();
      PutHeader(first, name, length, extra);
      if |payload| > 0 {
        Put(nBytes + HeaderLen(first), payload);
      } else {
        SpliceNothing(data[..], mid, payload);
      }
    }

    // Everything AddTag does once the section is known to fit.
    method PutSection(first: bool, name: seq<byte>, extra: nat, payload: seq<byte>, length: nat, ghost n: nat)
      requires Sized() && |name| == 4 && n <= nBytes && length == HeaderLen(first) + |payload|
      requires nBytes + length <= maxSize
      requires lastTagNext.Some? ==> lastTagNext.value + 4 <= n
      modifies this`nBytes, this`lastTagLength, this`lastTagNext, data
      ensures Sized() && nBytes == old(nBytes) + length
      ensures lastTagLength == Some(nBytes - |payload| - 8) && lastTagNext == Some(nBytes - |payload| - 4)
      ensures data[..nBytes] == Relinked(old(data[..n]), old(lastTagNext), old(nBytes))
        + (old(data[n..nBytes]) + (Stored(first, name, sequence, length, extra) + payload))
    {
      ghost var b, at, o, mid := data[..], lastTagNext, nBytes, nBytes + HeaderLen(first);
      Store(first, name, extra, payload, length, mid);
      lastTagLength := Some(nBytes + HeaderLen(first) - 8);
      lastTagNext := Some(nBytes + HeaderLen(first) - 4);
      nBytes := nBytes + HeaderLen(first);
      nBytes := nBytes + |payload|;
      RelinkedThenTwo(b, at, n, o, Stored(first, name, sequence, length, extra), payload, mid, nBytes);
    }

    lemma FirstSection(sequence: nat, t: Tag)
      requires |t.name| == 4
      ensures Chain(Stored(true, t.name, sequence, 16 + |t.payload|, t.extra) + t.payload,
                    Heading(sequence, 16 + |t.payload|, t.extra), [t], [0])
    {
      ChainOfOne(Heading(sequence, 16 + |t.payload|, t.extra), t);
      StoredIsHeader(Heading(sequence, 16 + |t.payload|, t.extra), [t], 0);
    }

    lemma NextSection(b: seq<byte>, h: Heading, tags: seq<Tag>, offs: seq<nat>, gap: seq<byte>, t: Tag, sequence: nat)
      requires Chain(b, h, tags, offs) && |t.name| == 4
      requires |b| + |gap| == Align4(|b|) < 0x1_0000
      ensures NextPos(offs) + 4 <= |b|
      ensures Chain(Relinked(b, Some(NextPos(offs)), |b| + |gap|)
                    + (gap + (Stored(false, t.name, sequence, 12 + |t.payload|, t.extra) + t.payload)),
                    h, tags + [t], offs + [|b| + |gap|])
    {
      ChainExtend(b, h, tags, offs, gap, t);
      NarrowNext(b, h, tags, offs, |b| + |gap|);
      StoredIsHeader(h, tags + [t], |tags|);
      assert Stored(false, t.name, sequence, 12 + |t.payload|, t.extra) == Header(h, tags + [t], |tags|, 0);
    }

    method PutFirst(name: seq<byte>, extra: nat, payload: seq<byte>)
      requires Linked() && tags == [] && |name| == 4 && 16 + |payload| <= maxSize
      modifies this`nBytes, this`lastTagLength, this`lastTagNext, this`tags, this`offs, this`head, data
      ensures Linked() && nBytes == 16 + |payload|
      ensures tags == [Tag(name, extra, payload)] && offs == [0] && head == Heading(sequence, 16 + |payload|, extra)
    {
      ghost var b := data[..];
      PutSection(true, name, extra, payload, 16 + |payload|, 0);
      FirstSection(sequence, Tag(name, extra, payload));
      assert data[..nBytes] == Stored(true, name, sequence, 16 + |payload|, extra) + payload;
      head := Heading(sequence, 16 + |payload|, extra);
      tags, offs := [Tag(name, extra, payload)], [0];
    }

    method PutNext(name: seq<byte>, extra: nat, payload: seq<byte>, ghost n: nat)
      requires Sized() && n <= nBytes == Align4(n) && nBytes <= data.Length && Chain(data[..n], head, tags, offs)
      requires lastTagLength == Some(LengthPos(offs)) && lastTagNext == Some(NextPos(offs))
      requires |name| == 4 && nBytes + 12 + |payload| <= maxSize
      modifies this`nBytes, this`lastTagLength, this`lastTagNext, this`tags, this`offs, data
      ensures Linked() && nBytes == old(nBytes) + 12 + |payload|
      ensures tags == old(tags) + [Tag(name, extra, payload)] && offs == old(offs) + [old(nBytes)]
    {
      ghost var b, gap, o := data[..n], data[n..nBytes], nBytes;
      ChainSize(b, head, tags, offs);
      NextSection(b, head, tags, offs, gap, Tag(name, extra, payload), sequence);
      PutSection(false, name, extra, payload, 12 + |payload|, n);
      tags, offs := tags + [Tag(name, extra, payload)], offs + [o];
    }

    /** A section is added exactly if it fits behind the alignment; a failure still keeps the alignment. */
    method AddTag(name: seq<byte>, extra: nat, payload: seq<byte>) returns (ok: bool)
      requires Linked() && |name| == 4
      modifies this`nBytes, this`lastTagLength, this`lastTagNext, this`tags, this`offs, this`head, data
      ensures Sized()
      ensures ok <==> Align4(old(nBytes)) + HeaderLen(old(tags) == []) + |payload| <= maxSize
      ensures ok ==> Linked() && nBytes == Align4(old(nBytes)) + HeaderLen(old(tags) == []) + |payload|
      ensures ok ==> tags == old(tags) + [Tag(name, extra, payload)]
      ensures ok && old(tags) == [] ==> head == Heading(sequence, 16 + |payload|, extra) && offs == [0]
      ensures ok && old(tags) != [] ==> head == old(head) && offs == old(offs) + [Align4(old(nBytes))]
      ensures !ok ==> nBytes == Align4(old(nBytes)) && data[..] == old(data[..])
    {
      ghost var n := nBytes;
      if tags != [] {
        ChainSize(data[..nBytes], head, tags, offs);
      }
      var first := nBytes == 0;
      AlignUp();
      ok := nBytes + HeaderLen(first) + |payload| <= maxSize;
      if ok {
        if first {
          PutFirst(name, extra, payload);
        } else {
          PutNext(name, extra, payload, n);
        }
      }
    }

    lemma GrownPrefix(b: seq<byte>, n: nat, at: nat, v: seq<byte>, d: seq<byte>, end: nat)
      requires end == n + |d| <= |b| && at + |v| <= n
      ensures Splice(Splice(b, n, d), at, v)[..end] == Splice(b[..n], at, v) + d
    {
      var x := Splice(b, n, d);
      SpliceAppend(b, n, d, end);
      SplicePrefix(x, at, v, end);
      assert Splice(b[..n] + d, at, v) == Splice(b[..n], at, v) + d;
    }

    method CopyAndBump(d: seq<byte>, at: nat)
      requires nBytes + |d| <= data.Length && at + 2 <= nBytes
      modifies data
      ensures data[..] == Splice(Splice(old(data[..]), nBytes, d), at, Le16(Get16(old(data[..nBytes]), at) + |d|))
    {
      Put(nBytes, d);
      var length := data[at] as int + 256 * (data[at + 1] as int);
      Put(at, Le16(length + |d|));
    }

    method AppendData(d: seq<byte>) returns (ok: bool)
      requires Linked() && tags != []
      modifies this`nBytes, this`tags, this`head, data
      ensures Linked()
      ensures ok <==> old(nBytes) + |d| <= maxSize
      ensures ok ==> nBytes == old(nBytes) + |d| && tags == GrownTags(old(tags), d)
      ensures ok ==> head == Grown(old(head), |tags| == 1, |d|)
      ensures !ok ==> nBytes == old(nBytes) && tags == old(tags) && head == old(head) && data[..] == old(data[..])
    {
      ok := nBytes + |d| <= maxSize;
      if ok {
        ghost var b, n, at := data[..], nBytes, lastTagLength.value;
        assert data[..n] == b[..n];
        ChainSize(b[..n], head, tags, offs);
        ChainGrow(b[..n], head, tags, offs, d, at);
        CopyAndBump(d, lastTagLength.value);
        nBytes := nBytes + |d|;
        GrownPrefix(b, n, at, Le16(Get16(b[..n], at) + |d|), d, nBytes);
        head := Grown(head, |tags| == 1, |d|);
        tags := GrownTags(tags, d);
      }
    }

    // An uplink frame under construction, with these packets so far.
    ghost predicate Carries(ps: seq<seq<byte>>)
      reads this, data, bounds
    {
      && Linked() && nPackets == |ps|
      && tags == [Tag(ADBH, 0, Body(ps))] && offs == [0]
      && head == Heading(sequence, 16 + |Body(ps)|, 0)
      && nBytes == 16 + |Body(ps)|
      && bounds[..nPackets] == TableOf(ps)
    }

    // A frame under construction, and it still has room for its own ADTH section.
    ghost predicate Fillable(ps: seq<seq<byte>>)
      reads this, data, bounds
    {
      Carries(ps) && maxSize % 4 == 0 && nBytes + 16 + 8 * nPackets <= maxSize
    }

    method Begin() returns (ok: bool)
      requires Linked() && tags == [] && nPackets == 0
      modifies this`nBytes, this`lastTagLength, this`lastTagNext, this`tags, this`offs, this`head, data
      ensures Sized() && (ok <==> 16 <= maxSize)
      ensures ok ==> Carries([])
    {
      ok := AddTag(ADBH, 0, []);
    }

    /** All or nothing: the packet and its table entry go in exactly if the ADTH section would still fit unaligned. */
    method AppendPacket(p: seq<byte>, ghost ps: seq<seq<byte>>) returns (ok: bool)
      requires Carries(ps)
      modifies this`nPackets, this`nBytes, this`tags, this`head, data, bounds
      ensures ok <==> |ps| < maxPackets && old(nBytes) + |p| + 16 + (12 + 4 + (|ps| + 1) * 8) <= maxSize
      ensures if ok then Carries(ps + [p])
              else Carries(ps) && nBytes == old(nBytes) && data[..] == old(data[..]) && bounds[..] == old(bounds[..])
    {
      var expected := 12 + 4 + (nPackets + 1) * 8;
      if nPackets >= maxPackets || nBytes + |p| + 16 + expected > maxSize {
        return false;
      }
      BodySnoc(ps, p);
      TableSnoc(ps, p);
      bounds[nPackets] := Bounds(nBytes, |p| + 16);
      nPackets := nPackets + 1;
      ok := AppendData(Zeros(16));
      ok := AppendData(p);
      assert Body(ps) + Zeros(16) + p == Body(ps + [p]);
    }

    /** With max_size a multiple of 4 and the trailer one too, the alignment bytes never cost the ADTH its room. */
    method AppendAdth(channel: nat, ghost ps: seq<seq<byte>>) returns (ok: bool)
      requires Carries(ps)
      modifies this`nBytes, this`lastTagLength, this`lastTagNext, this`tags, this`offs, this`head, data
      ensures Sized() && (ok <==> FrameSize(ps) <= maxSize)
      ensures Fillable(ps) ==> ok
      ensures ok ==> Linked() && nBytes == FrameSize(ps)
      ensures ok ==> tags == FrameTags(channel, ps) && offs == [0, AdthOffset(ps)] && head == old(head)
    {
      ok := AddTag(ADTH, channel, Le32(0));
      if ok {
        ok := AppendData(TableBytes(bounds[..nPackets]));
      }
    }

    // The first header gets the total length, and the frame is ready to be written.
    method Complete() returns (frame: seq<byte>)
      requires Linked() && tags != []
      modifies this`head, data
      ensures |frame| == nBytes
      ensures Chain(frame, Heading(old(head).seqno, nBytes, old(head).extra), tags, offs)
    {
      ghost var b := data[..];
      ChainSize(b[..nBytes], head, tags, offs);
      ChainSetTotal(b[..nBytes], head, tags, offs, Le16(nBytes), Heading(head.seqno, nBytes, head.extra));
      Put(8, Le16(nBytes));
      SplicePrefix(b, 8, Le16(nBytes), nBytes);
      head := Heading(head.seqno, nBytes, head.extra);
      frame := data[..nBytes];
    }

    // The two tags of the control message, and their numbers.
    method AddControl(channel: nat)
      requires Linked() && tags == [] && 56 <= maxSize
      modifies this`nBytes, this`lastTagLength, this`lastTagNext, this`tags, this`offs, this`head, data
      ensures Linked() && head == Heading(sequence, 16, 0) && offs == [0, 16]
      ensures tags == [Tag(ACBH, 0, []), Tag(CMDH, channel, Le32(1) + Le32(0) + Le32(0) + Le32(0))]
    {
      ghost var command := Le32(1) + Le32(0) + Le32(0) + Le32(0);
      var ok := AddTag(ACBH, 0, []);
      ok := AddTag(CMDH, channel, Le32(1) + Le32(0) + Le32(0) + Le32(0));
      assert offs == [0, 16] && tags == [Tag(ACBH, 0, []), Tag(CMDH, channel, command)];
    }
  }
}
