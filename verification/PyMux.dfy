/** The Python mux: a packet builder on byte strings, and a reader that consumes the rest of the message. */
module PyMux {
  import opened Bytes
  import opened MuxChain
  import opened MuxFrame
  import opened MuxDecode
  import opened NetUplink

  // Python slices never fail.
  function Slice(s: seq<byte>, i: nat, j: nat): seq<byte> {
    if j <= i || |s| <= i then [] else s[i..Min(j, |s|)]
  }

  // What append_tag adds to the packet.
  function Section(first: bool, seqno: nat, name: seq<byte>, data: seq<byte>, extra: nat): seq<byte> {
    var hdr := if first then name + (Le16(0) + Le16(seqno)) else name;
    hdr + (Le16(|hdr| + 8 + |data|) + Le16(extra) + Le32(0)) + data
  }

  // The length and extra fields of all sections behind the first are exact.
  ghost predicate Short(tags: seq<Tag>) {
    forall t :: t in tags ==> 12 + |t.payload| < 0x1_0000 && t.extra < 0x1_0000
  }

  // Where the sections of these tags start, and where the last one ends.
  function Offsets(tags: seq<Tag>): (offs: seq<nat>)
    ensures |offs| == |tags|
    decreases |tags|
  {
    if tags == [] then [] else Offsets(tags[..|tags| - 1]) + [Align4(Total(tags[..|tags| - 1]))]
  }

  function Total(tags: seq<Tag>): nat
    decreases |tags|
  {
    if tags == [] then 0
    else
      var n := |tags| - 1;
      Align4(Total(tags[..n])) + HeaderLen(n == 0) + |tags[n].payload|
  }

  lemma OffsetsSnoc(tags: seq<Tag>, t: Tag)
    ensures Offsets(tags + [t]) == Offsets(tags) + [Align4(Total(tags))]
    ensures Total(tags + [t]) == Align4(Total(tags)) + HeaderLen(tags == []) + |t.payload|
  {
    var more := tags + [t];
    assert more[..|more| - 1] == tags && more[|more| - 1] == t;
  }

  // Tags within the widths of all fields.
  ghost predicate Encodable(seqno: nat, tags: seq<Tag>) {
    seqno < 0x1_0000 && Total(tags) < 0x1_0000_0000 && forall k :: 0 <= k < |tags| ==> FieldsFit(tags[k], k == 0)
  }

  ghost predicate FieldsFit(t: Tag, first: bool) {
    HeaderLen(first) + |t.payload| < 0x1_0000 && t.extra < 0x1_0000
  }

  lemma {:induction false} TotalGrows(tags: seq<Tag>, k: nat)
    requires k < |tags|
    ensures Align4(Total(tags[..k])) + 12 <= Total(tags)
    decreases |tags|
  {
    var n := |tags| - 1;
    if k < n {
      TotalGrows(tags[..n], k);
      assert tags[..n][..k] == tags[..k];
    }
  }

  lemma StopsAt(seqno: nat, tags: seq<Tag>, k: nat)
    requires k < |tags|
    requires FieldsFit(tags[k], k == 0) ==> if k == 0 then seqno >= 0x1_0000
                                            else Align4(Total(tags[..k])) >= 0x1_0000_0000
    ensures !Encodable(seqno, tags)
  {
    TotalGrows(tags, k);
  }

  /** One packet under construction; a failing struct.pack is reported by false. */
  class MuxPacket {
    var seqno: nat
    var packet: seq<byte>
    var fwdPointer: nat

    ghost var tags: seq<Tag>
    ghost var offs: seq<nat>
    ghost var head: Heading

    ghost predicate Valid()
      reads this
    {
      if tags == [] then packet == []
      else Chain(packet, head, tags, offs) && fwdPointer == NextPos(offs) && head.seqno == seqno && Short(tags)
    }

    constructor (seqno: nat)
      ensures Made([]) && this.seqno == seqno
    {
      this.seqno, packet, fwdPointer := seqno, [], 0;
      tags, offs, head := [], [], Heading(0, 0, 0);
    }

    // The padding loop of append_tag.
    method Pad()
      modifies this`packet
      ensures packet == old(packet) + Zeros(Align4(|old(packet)|) - |old(packet)|)
    {
      ghost var was := packet;
      while |packet| % 4 != 0
        invariant |was| <= |packet| <= Align4(|was|) && packet == was + Zeros(|packet| - |was|)
        decreases Align4(|was|) - |packet|
      {
        packet := packet + [0];
      }
    }

    // Padding, then patching the last next field; false is a failing struct.pack.
    method Relink() returns (ok: bool)
      requires Valid() && tags != []
      modifies this`packet
      ensures var o := Align4(|old(packet)|); var z := Zeros(o - |old(packet)|);
        && fwdPointer + 4 <= |old(packet)|
        && (ok <==> o < 0x1_0000_0000)
        && packet == (if ok then Splice(old(packet), fwdPointer, Le32(o)) else old(packet)) + z
    {
      ghost var was := packet;
      ChainSize(packet, head, tags, offs);
      Pad();
      ok := |packet| < 0x1_0000_0000;
      if ok {
        packet := packet[..fwdPointer] + Le32(|packet|) + packet[fwdPointer + 4..];
        assert packet == Splice(was, fwdPointer, Le32(|packet|)) + Zeros(|packet| - |was|);
      }
    }

    lemma FirstPacket(tag: Tag)
      requires |tag.name| == 4
      ensures var h := Heading(seqno, 16 + |tag.payload|, tag.extra);
        Chain(tag.name + (Le16(0) + Le16(seqno)) + (Le16(16 + |tag.payload|) + Le16(tag.extra) + Le32(0)) + tag.payload,
              h, [tag], [0])
    {
      var h := Heading(seqno, 16 + |tag.payload|, tag.extra);
      assert tag.name + (Le16(0) + Le16(seqno)) + (Le16(16 + |tag.payload|) + Le16(tag.extra) + Le32(0))
          == Header(h, [tag], 0, 0);
      ChainOfOne(h, tag);
    }

    lemma NextPacket(b: seq<byte>, h: Heading, tags: seq<Tag>, offs: seq<nat>, z: seq<byte>, tag: Tag)
      requires Chain(b, h, tags, offs) && |tag.name| == 4 && |b| + |z| == Align4(|b|)
      ensures NextPos(offs) + 4 <= |b|
      ensures Chain(Splice(b, NextPos(offs), Le32(|b| + |z|)) + z
                    + (tag.name + (Le16(12 + |tag.payload|) + Le16(tag.extra) + Le32(0)) + tag.payload),
                    h, tags + [tag], offs + [|b| + |z|])
    {
      var hdr := tag.name + (Le16(12 + |tag.payload|) + Le16(tag.extra) + Le32(0));
      assert hdr == Header(h, tags + [tag], |tags|, 0);
      ChainExtend(b, h, tags, offs, z, tag);
      var p := Splice(b, NextPos(offs), Le32(|b| + |z|));
      assert p + z + (hdr + tag.payload) == p + (z + (hdr + tag.payload));
    }

    lemma SectionIs(first: bool, name: seq<byte>, data: seq<byte>, extra: nat)
      requires |name| == 4
      ensures Section(first, seqno, name, data, extra)
           == if first then
                name + (Le16(0) + Le16(seqno)) + (Le16(16 + |data|) + Le16(extra) + Le32(0)) + data
              else
                name + (Le16(12 + |data|) + Le16(extra) + Le32(0)) + data
    {}

    // The header behind the tag, and then the data.
    method AddSection(first: bool, name: seq<byte>, data: seq<byte>, extra: nat) returns (ok: bool)
      requires first ==> packet == []
      modifies this`packet, this`fwdPointer
      ensures ok <==> (first ==> seqno < 0x1_0000) && extra < 0x1_0000
                      && |name| + (if first then 12 else 8) + |data| < 0x1_0000
      ensures if ok then packet == old(packet) + Section(first, seqno, name, data, extra)
                         && fwdPointer == |packet| - |data| - 4
              else packet == old(packet) && fwdPointer == old(fwdPointer)
    {
      var hdr := name;
      if first {
        if seqno >= 0x1_0000 {
          return false;
        }
        hdr := hdr + (Le16(0) + Le16(seqno));
      }
      var hdrLen := |hdr| + 8;
      if hdrLen + |data| >= 0x1_0000 || extra >= 0x1_0000 {
        return false;
      }
      hdr := hdr + (Le16(hdrLen + |data|) + Le16(extra) + Le32(0));
      fwdPointer := |packet| + |hdr| - 4;
      packet := packet + (hdr + data);
      ok := true;
    }

    lemma FirstIsValid(tag: Tag)
      requires |tag.name| == 4 && packet == Section(true, seqno, tag.name, tag.payload, tag.extra)
      requires fwdPointer == |packet| - |tag.payload| - 4 && 16 + |tag.payload| < 0x1_0000 && tag.extra < 0x1_0000
      requires tags == [tag] && offs == [0] && head == Heading(seqno, 16 + |tag.payload|, tag.extra)
      ensures Valid()
    {
      SectionIs(true, tag.name, tag.payload, tag.extra);
      FirstPacket(tag);
    }

    lemma NextIsValid(was: seq<byte>, z: seq<byte>, before: seq<Tag>, starts: seq<nat>, tag: Tag)
      requires Chain(was, head, before, starts) && head.seqno == seqno && Short(before)
      requires |tag.name| == 4 && 12 + |tag.payload| < 0x1_0000 && tag.extra < 0x1_0000 && |was| + |z| == Align4(|was|)
      requires NextPos(starts) + 4 <= |was|
      requires packet == Splice(was, NextPos(starts), Le32(|was| + |z|)) + z
                         + Section(false, seqno, tag.name, tag.payload, tag.extra)
      requires fwdPointer == |packet| - |tag.payload| - 4
      requires tags == before + [tag] && offs == starts + [|was| + |z|]
      ensures Valid()
    {
      SectionIs(false, tag.name, tag.payload, tag.extra);
      NextPacket(was, head, before, starts, z, tag);
    }

    method AppendFirst(name: seq<byte>, data: seq<byte>, extra: nat) returns (ok: bool)
      requires Valid() && tags == []
      modifies this`packet, this`fwdPointer, this`tags, this`offs, this`head
      ensures ok <==> seqno < 0x1_0000 && |name| + 12 + |data| < 0x1_0000 && extra < 0x1_0000
      ensures packet == if ok then Section(true, seqno, name, data, extra) else []
      ensures ok ==> head == Heading(seqno, 16 + |data|, extra)
      ensures ok && |name| == 4 ==> Valid() && tags == [Tag(name, extra, data)] && offs == [0]
      ensures !ok ==> tags == [] && fwdPointer == old(fwdPointer)
    {
      ok := AddSection(true, name, data, extra);
      if ok {
        head := Heading(seqno, 16 + |data|, extra);
        tags, offs := [Tag(name, extra, data)], [0];
        if |name| == 4 {
          FirstIsValid(tags[0]);
        }
      }
    }

    method AppendNext(name: seq<byte>, data: seq<byte>, extra: nat) returns (ok: bool)
      requires Valid() && tags != []
      modifies this`packet, this`fwdPointer, this`tags, this`offs
      ensures var o := Align4(|old(packet)|); var z := Zeros(o - |old(packet)|);
        && old(fwdPointer) + 4 <= |old(packet)|
        && (ok <==> o < 0x1_0000_0000 && |name| + 8 + |data| < 0x1_0000 && extra < 0x1_0000)
        && packet == (if o < 0x1_0000_0000 then Splice(old(packet), old(fwdPointer), Le32(o)) else old(packet)) + z
                     + (if ok then Section(false, seqno, name, data, extra) else [])
        && (ok && |name| == 4 ==> Valid() && tags == old(tags) + [Tag(name, extra, data)] && offs == old(offs) + [o])
        && (!ok ==> tags == old(tags) && fwdPointer == old(fwdPointer))
    {
      ghost var was, starts, before := packet, offs, tags;
      ok := Relink();
      ghost var linked := packet;
      assert linked + [] == linked;
      if ok {
        ok := AddSection(false, name, data, extra);
        if ok {
          tags, offs := tags + [Tag(name, extra, data)], offs + [|linked|];
          if |name| == 4 {
            NextIsValid(was, Zeros(|linked| - |was|), before, starts, Tag(name, extra, data));
          }
        }
      }
    }

    /** Fails exactly beyond the field widths; then an earlier section may already point at the missing one. */
    method AppendTag(name: seq<byte>, data: seq<byte>, extra: nat) returns (ok: bool)
      requires Valid()
      modifies this`packet, this`fwdPointer, this`tags, this`offs, this`head
      ensures var first, o := old(tags) == [], Align4(|old(packet)|);
        && (ok <==> |name| + HeaderLen(first) - 4 + |data| < 0x1_0000 && extra < 0x1_0000
                    && if first then seqno < 0x1_0000 else o < 0x1_0000_0000)
        && (!first ==> old(fwdPointer) + 4 <= |old(packet)|)
        && (ok ==> packet == (if first then [] else Splice(old(packet), old(fwdPointer), Le32(o))
                                                    + Zeros(o - |old(packet)|))
                             + Section(first, seqno, name, data, extra))
        && (ok && |name| == 4 ==> Valid() && tags == old(tags) + [Tag(name, extra, data)]
                                  && offs == (if first then [0] else old(offs) + [o]))
        && (ok ==> head == if first then Heading(seqno, 16 + |data|, extra) else old(head))
        && (ok && !first ==> o <= |packet| && packet[|old(packet)|..o] == Zeros(o - |old(packet)|))
    {
      if tags != [] {
        ChainSize(packet, head, tags, offs);
      }
      if packet == [] {
        ok := AppendFirst(name, data, extra);
      } else {
        ok := AppendNext(name, data, extra);
      }
    }

    /** The length fields of the first section become the packet's size. */
    method GetPacket() returns (ok: bool, result: seq<byte>)
      requires Valid()
      modifies this`packet, this`head
      ensures ok <==> |old(packet)| < 0x1_0000_0000
      ensures ok && tags != [] ==> Valid() && result == packet && packet == Splice(old(packet), 8, Le32(|packet|))
      ensures ok && tags != [] ==> head == Heading(seqno, |packet|, |packet| / 0x1_0000)
      ensures ok && tags == [] ==> result == Zeros(4)
      ensures !ok ==> packet == old(packet) && result == []
    {
      if |packet| >= 0x1_0000_0000 {
        return false, [];
      }
      ghost var h := Heading(seqno, |packet|, |packet| / 0x1_0000);
      if tags != [] {
        SplitTotal(|packet|);
        ChainSetTotal(packet, head, tags, offs, Le32(|packet|), h);
        assert Slice(packet, 0, 8) == packet[..8] && Slice(packet, 12, |packet|) == packet[12..];
      }
      packet := Slice(packet, 0, 8) + Le32(|packet|) + Slice(packet, 12, |packet|);
      head := h;
      ok, result := true, packet;
    }

    // The packet so far, as the tags that went in.
    ghost predicate Made(items: seq<Tag>)
      reads this
    {
      Valid() && tags == items && |packet| == Total(items) && (items != [] ==> offs == Offsets(items))
    }

    method AppendItem(ghost done: seq<Tag>, t: Tag) returns (ok: bool)
      requires Made(done) && |t.name| == 4
      modifies this`packet, this`fwdPointer, this`tags, this`offs, this`head
      ensures ok <==> FieldsFit(t, done == []) && if done == [] then seqno < 0x1_0000
                                                  else Align4(Total(done)) < 0x1_0000_0000
      ensures ok ==> Made(done + [t])
    {
      OffsetsSnoc(done, t);
      ok := AppendTag(t.name, t.payload, t.extra);
    }

    method AppendItems(items: seq<Tag>) returns (ok: bool)
      requires Made([]) && forall t :: t in items ==> |t.name| == 4
      modifies this`packet, this`fwdPointer, this`tags, this`offs, this`head
      ensures ok ==> Made(items) && forall k :: 0 <= k < |items| ==> FieldsFit(items[k], k == 0)
      ensures ok && items != [] ==> seqno < 0x1_0000
      ensures !ok ==> items != [] && !Encodable(seqno, items)
    {
      for i := 0 to |items|
        invariant i > 0 ==> seqno < 0x1_0000
        invariant Made(items[..i]) && forall k :: 0 <= k < i ==> FieldsFit(items[k], k == 0)
      {
        assert items[..i + 1] == items[..i] + [items[i]];
        ok := AppendItem(items[..i], items[i]);
        if !ok {
          StopsAt(seqno, items, i);
          return;
        }
      }
      assert items[..|items|] == items;
      ok := true;
    }

    /** Any sequence of append_tag and a final get_packet: it fails exactly beyond the field widths, and whoever follows
        the next fields of the result meets exactly these tags. */
    method Assemble(items: seq<Tag>) returns (ok: bool, result: seq<byte>)
      requires Made([]) && forall t :: t in items ==> |t.name| == 4
      modifies this
      ensures ok <==> items == [] || Encodable(old(seqno), items)
      ensures ok ==> if items == [] then result == Zeros(4)
                     else |result| == Total(items) && Walks(result, old(seqno), items, Offsets(items))
    {
      result := [];
      ok := AppendItems(items);
      if ok {
        ok, result := GetPacket();
        if ok && items != [] {
          PacketWalk(result, seqno, items, offs);
        }
      }
    }
  }

  lemma SplitTotal(n: nat)
    ensures Le32(n) == Le16(n) + Le16(n / 0x1_0000)
  {
    assert n / 0x1_0000 / 256 == n / 16777216;
  }

  // What a finished packet looks like to someone who only follows next fields and length fields.
  ghost predicate Walks(b: seq<byte>, seqno: nat, tags: seq<Tag>, offs: seq<nat>) {
    && |tags| == |offs| && |b| >= 16 && Get32(b, 8) == |b| && Get16(b, 6) == seqno && b[4] == b[5] == 0
    && Follow(b, 0, true) == Some(offs)
    && (forall k :: 0 <= k < |tags| - 1 ==> offs[k] < offs[k + 1])
    && (forall k :: 0 <= k < |tags| ==> Met(b, tags, offs, k))
  }

  // Section k in its place, with its own fields.
  ghost predicate Met(b: seq<byte>, tags: seq<Tag>, offs: seq<nat>, k: nat)
    requires k < |tags| == |offs|
  {
    && offs[k] % 4 == 0 && End(tags, offs, k) <= |b|
    && b[offs[k]..offs[k] + 4] == tags[k].name
    && b[Data(offs, k)..End(tags, offs, k)] == tags[k].payload
    && (k > 0 ==> Get16(b, offs[k] + 4) == End(tags, offs, k) - offs[k])
    && (k > 0 ==> Get16(b, offs[k] + 6) == tags[k].extra)
  }

  lemma PacketWalk(b: seq<byte>, seqno: nat, tags: seq<Tag>, offs: seq<nat>)
    requires |b| < 0x1_0000_0000 && Chain(b, Heading(seqno, |b|, |b| / 0x1_0000), tags, offs)
    requires Short(tags) && seqno < 0x1_0000
    ensures Walks(b, seqno, tags, offs)
  {
    var h := Heading(seqno, |b|, |b| / 0x1_0000);
    ChainFollowed(b, h, tags, offs, 0);
    assert offs[0..] == offs;
    FirstLength(b, h, tags, offs);
    forall k | 0 <= k < |tags| ensures Met(b, tags, offs, k) {
      SectionRead(b, h, tags, offs, k);
    }
    forall k | 0 <= k < |tags| - 1 ensures offs[k] < offs[k + 1] {
      Before(tags, offs, k, k + 1);
    }
  }

  lemma FirstLength(b: seq<byte>, h: Heading, tags: seq<Tag>, offs: seq<nat>)
    requires Chain(b, h, tags, offs) && |b| < 0x1_0000_0000 && h.length == |b| && h.extra == |b| / 0x1_0000
    requires h.seqno < 0x1_0000
    ensures |b| >= 16 && Get32(b, 8) == |b| && Get16(b, 6) == h.seqno && b[4] == b[5] == 0
  {
    assert SectionAt(b, h, tags, offs, 0);
    var s := Header(h, tags, 0, NextOf(offs, 0));
    SliceFrom(b, 0, 16, s, 4, 12, 4, 12);
    assert s[4..12] == Le16(0) + Le16(h.seqno) + (Le16(h.length) + Le16(h.extra));
    SplitTotal(|b|);
    EightBytes(b, h.seqno, |b|);
    Le16RoundTrip(h.seqno);
    Le32RoundTrip(|b|);
  }

  lemma EightBytes(b: seq<byte>, seqno: nat, total: nat)
    requires |b| >= 16 && b[4..12] == Le16(0) + Le16(seqno) + Le32(total)
    ensures b[4] == b[5] == 0 && Get16(b, 6) == FromLe16(Le16(seqno)) && Get32(b, 8) == FromLe32(Le32(total))
  {
    var s := b[4..12];
    assert b[4] == s[0] && b[5] == s[1] && b[6] == s[2] && b[7] == s[3];
    assert b[8] == s[4] && b[9] == s[5] && b[10] == s[6] && b[11] == s[7];
  }

  lemma SectionRead(b: seq<byte>, h: Heading, tags: seq<Tag>, offs: seq<nat>, k: nat)
    requires Chain(b, h, tags, offs) && k < |tags| && 12 + |tags[k].payload| < 0x1_0000 && tags[k].extra < 0x1_0000
    ensures Met(b, tags, offs, k)
  {
    assert SectionAt(b, h, tags, offs, k);
    var s, o := Header(h, tags, k, NextOf(offs, k)), offs[k];
    SliceFrom(b, o, Data(offs, k), s, 0, 4, o, o + 4);
    assert s[0..4] == tags[k].name;
    if k > 0 {
      assert Abuts(tags, offs, k - 1);
      SliceFrom(b, o, Data(offs, k), s, 4, 8, o + 4, o + 8);
      assert s[4..8] == Le16(12 + |tags[k].payload|) + Le16(tags[k].extra);
      FourBytes(b, o + 4, 12 + |tags[k].payload|, tags[k].extra);
    }
  }

  lemma FourBytes(b: seq<byte>, at: nat, length: nat, extra: nat)
    requires at + 4 <= |b| && b[at..at + 4] == Le16(length) + Le16(extra) && length < 0x1_0000 && extra < 0x1_0000
    ensures Get16(b, at) == length && Get16(b, at + 2) == extra
  {
    var s := b[at..at + 4];
    assert b[at] == s[0] && b[at + 1] == s[1] && b[at + 2] == s[2] && b[at + 3] == s[3];
    Le16RoundTrip(length);
    Le16RoundTrip(extra);
  }

  lemma OnePacket(d: seq<byte>)
    ensures Body([d]) == Zeros(16) + d
    ensures TableBytes(TableOf([d])) == Le32(16) + Le32(16 + |d|)
  {
    assert [d][..0] == [];
    BodySnoc([], d);
    assert [] + [d] == [d];
    var t := TableOf([d]);
    assert t == [Bounds(16, 16 + |d|)];
    assert t[..0] == [];
    assert TableBytes(t) == [] + (Le32(16) + Le32(16 + |d|));
  }

  class XMMMux {
    var seqno: nat

    constructor ()
      ensures seqno == 0
    {
      seqno := 0;
    }

    // The two sections of a frame.
    method Sections(p: MuxPacket, data: seq<byte>) returns (ok: bool)
      requires p.Valid() && p.tags == [] && p.seqno < 256
      modifies p`packet, p`fwdPointer, p`tags, p`offs, p`head
      ensures ok <==> 32 + |data| < 0x1_0000
      ensures ok ==> p.Valid() && p.tags == FrameTags(0, [data]) && p.offs == [0, AdthOffset([data])]
      ensures ok ==> |p.packet| == FrameSize([data])
      ensures ok ==> p.packet[32 + |data|..AdthOffset([data])] == Zeros(AdthOffset([data]) - 32 - |data|)
    {
      OnePacket(data);
      var padded := Zeros(16) + data;
      ok := p.AppendTag(ADBH, padded, 0);
      if ok {
        assert |p.packet| == 32 + |data|;
        ok := p.AppendTag(ADTH, Le32(0) + (Le32(16) + Le32(|padded|)), 0);
      }
    }

    /** One frame for one packet: up to 64 KiB exactly the kernel's frame, with zeros in the alignment gap. */
    method Package(data: seq<byte>) returns (ok: bool, frame: seq<byte>)
      requires seqno < 256
      modifies this
      ensures seqno == (old(seqno) + 1) % 256
      ensures ok <==> 32 + |data| < 0x1_0000
      ensures ok ==> |frame| == FrameSize([data])
      ensures ok && |frame| < 0x1_0000 ==> NetFrame(frame, seqno, 0, [data])
      ensures ok ==> Walks(frame, seqno, FrameTags(0, [data]), [0, AdthOffset([data])])
      ensures ok ==> forall i :: 32 + |data| <= i < AdthOffset([data]) ==> frame[i] == 0
    {
      seqno := (seqno + 1) % 256;
      frame := [];
      var p := new MuxPacket(seqno);
      ok := Sections(p, data);
      if ok {
        frame := Finish(p, data, 32 + |data|, AdthOffset([data]));
      }
    }

    method Finish(p: MuxPacket, ghost data: seq<byte>, ghost from: nat, ghost upTo: nat) returns (frame: seq<byte>)
      requires p.Valid() && p.tags == FrameTags(0, [data]) && p.offs == [0, AdthOffset([data])]
      requires |p.packet| == FrameSize([data]) < 0x1_0000_0000 && 32 <= from <= upTo <= |p.packet|
      requires p.packet[from..upTo] == Zeros(upTo - from)
      modifies p`packet, p`head
      ensures |frame| == FrameSize([data])
      ensures |frame| < 0x1_0000 ==> NetFrame(frame, p.seqno, 0, [data])
      ensures p.seqno < 256 ==> Walks(frame, p.seqno, FrameTags(0, [data]), [0, AdthOffset([data])])
      ensures forall i :: from <= i < upTo ==> frame[i] == 0
    {
      ghost var built := p.packet;
      frame := Seal(p);
      SpliceApart(built, 8, Le32(|built|), from, upTo);
      ZeroSlice(frame, from, upTo);
    }

    method Seal(p: MuxPacket) returns (frame: seq<byte>)
      requires p.Valid() && p.tags != [] && |p.packet| < 0x1_0000_0000
      modifies p`packet, p`head
      ensures |frame| == |old(p.packet)| && frame == Splice(old(p.packet), 8, Le32(|frame|))
      ensures Chain(frame, Heading(p.seqno, |frame|, |frame| / 0x1_0000), p.tags, p.offs)
      ensures p.seqno < 256 ==> Walks(frame, p.seqno, p.tags, p.offs)
    {
      ChainSize(p.packet, p.head, p.tags, p.offs);
      var ok;
      ok, frame := p.GetPacket();
      if p.seqno < 256 {
        PacketWalk(frame, p.seqno, p.tags, p.offs);
      }
    }
  }

  lemma ZeroSlice(s: seq<byte>, i: nat, j: nat)
    requires i <= j <= |s| && s[i..j] == Zeros(j - i)
    ensures forall k :: i <= k < j ==> s[k] == 0
  {
    forall k | i <= k < j ensures s[k] == 0 {
      assert s[k] == s[i..j][k - i];
    }
  }

  lemma SectionsAgree(a: seq<byte>, b: seq<byte>, h: Heading, tags: seq<Tag>, offs: seq<nat>, k: nat)
    requires Chain(a, h, tags, offs) && Chain(b, h, tags, offs) && k < |tags|
    ensures End(tags, offs, k) <= |a| == |b|
    ensures forall i :: offs[k] <= i < End(tags, offs, k) ==> a[i] == b[i]
  {
    assert SectionAt(a, h, tags, offs, k) && SectionAt(b, h, tags, offs, k);
    SameSlice(a, b, offs[k], Data(offs, k));
    SameSlice(a, b, Data(offs, k), End(tags, offs, k));
  }

  lemma SameSlice(a: seq<byte>, b: seq<byte>, i: nat, j: nat)
    requires i <= j <= |a| && j <= |b| && a[i..j] == b[i..j]
    ensures forall k :: i <= k < j ==> a[k] == b[k]
  {
    forall k | i <= k < j ensures a[k] == b[k] {
      assert a[k] == a[i..j][k - i] == b[i..j][k - i];
    }
  }

  /** Two frames for the same packets and sequence number can only differ in the alignment gap. */
  lemma FramesAgree(a: seq<byte>, b: seq<byte>, seqno: nat, channel: nat, ps: seq<seq<byte>>)
    requires NetFrame(a, seqno, channel, ps) && NetFrame(b, seqno, channel, ps)
    ensures |a| == |b|
    ensures forall i :: 0 <= i < |a| && !(16 + |Body(ps)| <= i < AdthOffset(ps)) ==> a[i] == b[i]
  {
    FrameLayout(a, seqno, channel, ps);
    FrameLayout(b, seqno, channel, ps);
    var tags, offs := FrameTags(channel, ps), [0, AdthOffset(ps)];
    SectionsAgree(a, b, Heading(seqno, |a|, 0), tags, offs, 0);
    SectionsAgree(a, b, Heading(seqno, |a|, 0), tags, offs, 1);
    assert End(tags, offs, 1) == |a|;
  }

  // The tail-consuming loop of read_mux.
  function Regions(data: seq<byte>, tail: seq<byte>): (rs: seq<seq<byte>>)
    ensures |rs| == |tail| / 8
    decreases |tail|
  {
    if |tail| < 8 then []
    else
      var b := ReadBounds(tail, 0);
      [Slice(data, b.offset, b.offset + b.length)] + Regions(data, tail[8..])
  }

  const READ_SIZE := 8192

  // read_mux gets at most 8192 bytes of a frame; None is a failing struct.unpack.
  function ReadMuxRegions(frame: seq<byte>): Option<seq<seq<byte>>> {
    var data := frame[..Min(|frame|, READ_SIZE)];
    if !(ADBH <= data) then Some([])
    else if |data| < 16 then None
    else
      var next := FromLe32(data[12..16]);
      var tail := Slice(data, next, |data|);
      if !(ADTH <= tail) then Some([])
      else if |tail| < 8 then None
      else Some(Regions(data, Slice(tail, 16, |tail|)))
  }

  method ReadTable(data: seq<byte>, table: seq<byte>) returns (written: seq<seq<byte>>)
    ensures written == Regions(data, table)
  {
    written := [];
    var tail := table;
    while |tail| >= 8
      invariant Regions(data, table) == written + Regions(data, tail)
      decreases |tail|
    {
      var b := ReadBounds(tail, 0);
      written := written + [Slice(data, b.offset, b.offset + b.length)];
      tail := tail[8..];
    }
  }

  method ReadMux(frame: seq<byte>) returns (ok: bool, written: seq<seq<byte>>)
    ensures ReadMuxRegions(frame) == if ok then Some(written) else None
  {
    ok, written := true, [];
    var data := frame[..Min(|frame|, READ_SIZE)];
    if ADBH <= data {
      if |data| < 16 {
        return false, [];
      }
      var next := FromLe32(data[12..16]);
      var tail := Slice(data, next, |data|);
      if ADTH <= tail {
        if |tail| < 8 {
          return false, [];
        }
        written := ReadTable(data, Slice(tail, 16, |tail|));
      }
    }
  }

  lemma TailBounds(b: seq<byte>, pos: nat)
    requires pos + 8 <= |b|
    ensures ReadBounds(b[pos..], 0) == ReadBounds(b, pos)
  {
    assert b[pos..][0..4] == b[pos..pos + 4];
    assert b[pos..][4..8] == b[pos + 4..pos + 8];
  }

  lemma TailRegion(b: seq<byte>, ps: seq<seq<byte>>, o: nat, pos: nat, i: nat)
    requires Layout(b, ps, o) && |b| < 0x1_0000_0000 && i < |ps| && pos == o + 16 + 8 * i
    ensures pos + 8 <= |b|
    ensures var e := ReadBounds(b[pos..], 0); Slice(b, e.offset, e.offset + e.length) == Zeros(16) + ps[i]
  {
    var e := TableOf(ps)[i];
    FrameRegion(b, ps, o, i, e, Zeros(16) + ps[i], e.offset + e.length);
    FrameBounds(b, ps, o, i, pos, e);
    TailBounds(b, pos);
  }

  lemma {:induction false} TailRegions(b: seq<byte>, ps: seq<seq<byte>>, o: nat, pos: nat, i: nat)
    requires Layout(b, ps, o) && i <= |ps| && pos == o + 16 + 8 * i && |b| < 0x1_0000_0000
    ensures pos <= |b| && Regions(b, b[pos..]) == Padded(ps)[i..]
    decreases |ps| - i
  {
    if i < |ps| {
      TailRegion(b, ps, o, pos, i);
      TailRegions(b, ps, o, pos + 8, i + 1);
      assert b[pos..][8..] == b[pos + 8..];
      assert Padded(ps)[i..] == [Padded(ps)[i]] + Padded(ps)[i + 1..];
    }
  }

  lemma ReadsWholeFrame(b: seq<byte>, ps: seq<seq<byte>>, o: nat)
    requires Layout(b, ps, o) && |b| <= READ_SIZE
    ensures ReadMuxRegions(b) == Some(Padded(ps))
  {
    Le32RoundTrip(o);
    assert b[..|b|] == b && b[..4] == b[0..4];
    var tail := b[o..|b|];
    assert tail[..4] == b[o..o + 4];
    assert tail[16..|tail|] == b[o + 16..];
    TailRegions(b, ps, o, o + 16, 0);
    assert Padded(ps)[0..] == Padded(ps);
  }

  lemma ReadsTooFew(b: seq<byte>, ps: seq<seq<byte>>, o: nat)
    requires Layout(b, ps, o) && READ_SIZE < |b| < 0x1_0000
    ensures ReadMuxRegions(b).Some? ==> |ReadMuxRegions(b).value| < |ps| || ps == []
  {
    Le32RoundTrip(o);
    var data := b[..READ_SIZE];
    assert data[12..16] == b[12..16];
    assert data[..4] == b[0..4];
  }

  /** The Python reader agrees with the C readers on exactly the frames that one of its reads can hold. */
  lemma ReadMuxAgrees(b: seq<byte>, seqno: nat, channel: nat, ps: seq<seq<byte>>)
    requires NetFrame(b, seqno, channel, ps) && |b| < 0x1_0000
    ensures KernelRegions(b) == Some(Padded(ps))
    ensures ReadMuxRegions(b) == KernelRegions(b) <==> |b| <= 8192
  {
    FrameLayout(b, seqno, channel, ps);
    LayoutRoundTrip(b, ps, AdthOffset(ps), []);
    assert b + [] == b;
    if |b| <= READ_SIZE {
      ReadsWholeFrame(b, ps, AdthOffset(ps));
    } else {
      ReadsTooFew(b, ps, AdthOffset(ps));
      assert ps == [] ==> |b| == 32;
    }
  }

  lemma EntrySliced(data: seq<byte>, at: nat, offset: nat, r: seq<byte>, tail: seq<byte>, rest: seq<byte>)
    requires at + 8 <= |data| && Entry(data, at, offset, r) && tail == data[at..] && rest == data[at + 8..]
    ensures Regions(data, tail) == [r] + Regions(data, rest)
  {
    EntryRead(data, at, offset, r);
    TailBounds(data, at);
    assert tail[8..] == rest;
  }

  lemma {:induction false} PageTail(data: seq<byte>, next: nat, offs: seq<nat>, rs: seq<seq<byte>>,
                                    i: nat, at: nat, tail: seq<byte>)
    requires Page(data, next, offs, rs) && i <= |rs| && at == next + 16 + 8 * i && tail == data[at..]
    requires |data| < next + 16 + 8 * (|rs| + 1)
    ensures Regions(data, tail) == rs[i..]
    decreases |rs| - i
  {
    if i < |rs| {
      assert Listed(data, next, offs, rs, i);
      var rest := data[at + 8..];
      EntrySliced(data, at, offs[i], rs[i], tail, rest);
      PageTail(data, next, offs, rs, i + 1, at + 8, rest);
      assert rs[i..] == [rs[i]] + rs[i + 1..];
    } else {
      assert rs[i..] == [];
    }
  }

  /** On any page one read can hold, whose table is at its end, the Python reader finds the table's regions too. */
  lemma PageReadMux(data: seq<byte>, next: nat, offs: seq<nat>, rs: seq<seq<byte>>)
    requires Page(data, next, offs, rs) && data[14] == data[15] == 0
    requires |data| <= 8192 && |data| < next + 16 + 8 * (|rs| + 1)
    ensures ReadMuxRegions(data) == Some(rs)
  {
    assert data[..|data|] == data && data[..4] == data[0..4];
    ReadLong(data, 12, 16);
    var tail := data[next..|data|];
    assert tail[..4] == data[next..next + 4] && tail[16..|tail|] == data[next + 16..];
    PageTail(data, next, offs, rs, 0, next + 16, data[next + 16..]);
    assert rs[0..] == rs;
  }

  lemma {:induction false} UniformBody(p: seq<byte>, n: nat)
    ensures |Body(seq(n, _ => p))| == n * (16 + |p|)
    decreases n
  {
    if n > 0 {
      var less := seq(n - 1, _ => p);
      UniformBody(p, n - 1);
      BodySnoc(less, p);
      assert less + [p] == seq(n, _ => p);
    }
  }

  /** Such frames do occur: six packets of 1500 bytes pass the driver's admission test, and the driver builds a frame
      for them that the Python reader does not understand. */
  lemma LongFrameMisread(seqno: nat, channel: nat) returns (b: seq<byte>)
    ensures var ps := seq(6, _ => Zeros(1500));
      && Fits(ps, 16384) && Builds(ps, 16384) && NetFrame(b, seqno, channel, ps)
      && ReadMuxRegions(b) != KernelRegions(b) == Some(Padded(ps))
  {
    var ps := seq(6, _ => Zeros(1500));
    UniformBody(Zeros(1500), 6);
    BuildsIff(ps, 16384);
    b := FrameExists(seqno, channel, ps);
    ReadMuxAgrees(b, seqno, channel, ps);
  }
}
