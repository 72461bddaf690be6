/** The three readers of the mux format, and what they make of a frame the builders produced. */
module MuxDecode {
  import opened Bytes
  import opened MuxChain
  import opened MuxFrame

  // What the builders put on the wire for each packet.
  function Padded(ps: seq<seq<byte>>): (r: seq<seq<byte>>)
    ensures |r| == |ps|
  {
    seq(|ps|, i requires 0 <= i < |ps| => Zeros(16) + ps[i])
  }

  /** The packet count: the length less the 12 bytes of the header and 4 more, divided by the 8 bytes of a bounds entry,
      in size_t arithmetic and then stored in an int. */
  function CountEntries(length: nat): int
    requires length < 0x1_0000
  {
    var size := (length - 16) % 0x1_0000_0000_0000_0000;
    var low := size / 8 % 0x1_0000_0000;
    if low < 0x8000_0000 then low else low - 0x1_0000_0000
  }

  /** A table shorter than its own header wraps around to a negative count, and so reads as empty. */
  lemma CountEntriesMeans(length: nat)
    requires length < 0x1_0000
    ensures length >= 16 ==> CountEntries(length) == (length - 16) / 8
    ensures length < 16 ==> CountEntries(length) < 0
  {
    if length < 16 {
      assert (length - 16) % 0x1_0000_0000_0000_0000 == 0x1_0000_0000_0000_0000 + length - 16;
    }
  }

  function ReadBounds(data: seq<byte>, pos: nat): Bounds
    requires pos + 8 <= |data|
  {
    Bounds(FromLe32(data[pos..pos + 4]), FromLe32(data[pos + 4..pos + 8]))
  }

  // None is a read outside the page.
  function ReadRegion(data: seq<byte>, pos: nat): Option<seq<byte>> {
    if pos + 8 > |data| then None
    else
      var b := ReadBounds(data, pos);
      if b.length == 0 then Some([])
      else if b.offset + b.length > |data| then None
      else Some(data[b.offset..b.offset + b.length])
  }

  function ReadRegions(data: seq<byte>, pos: nat, n: nat): Option<seq<seq<byte>>>
    decreases n
  {
    if n == 0 then Some([])
    else
      match (ReadRegion(data, pos), ReadRegions(data, pos + 8, n - 1))
      case (Some(r), Some(rest)) => Some([r] + rest)
      case _ => None
  }

  // What follows the first header once its next field has been read.
  function RegionsAt(data: seq<byte>, next: nat): Option<seq<seq<byte>>> {
    if next + 12 > |data| then None
    else if data[next..next + 4] != ADTH then Some([])
    else
      var n := CountEntries(FromLe16(data[next + 4..next + 6]));
      if n <= 0 then Some([]) else ReadRegions(data, next + 16, n)
  }

  // handle_frame up to delivery: control frames and unknown tags carry nothing.
  function KernelRegions(data: seq<byte>): Option<seq<seq<byte>>> {
    if |data| < 16 then None
    else if data[..4] != ADBH then Some([])
    else RegionsAt(data, FromLe16(data[12..14]))
  }

  // handle_mux_frame of rpc/mux.c: the next field is 32 bits wide.
  function UserRegions(data: seq<byte>): Option<seq<seq<byte>>> {
    if |data| < 16 then None
    else if data[..4] != ADBH then Some([])
    else RegionsAt(data, FromLe32(data[12..16]))
  }

  // Where a region lies in the body, with every quantity named by the caller.

  lemma BodyLast(ps: seq<seq<byte>>, n: nat, c: seq<byte>, x: nat)
    requires ps != [] && n == |ps| - 1 && c == Zeros(16) + ps[n] && x == |Body(ps[..n])|
    ensures Body(ps) == Body(ps[..n]) + c
    ensures Body(ps)[x..] == c
  {}

  lemma TableLast(ps: seq<seq<byte>>, n: nat)
    requires ps != [] && n == |ps| - 1
    ensures TableOf(ps) == TableOf(ps[..n]) + [Bounds(16 + |Body(ps[..n])|, 16 + |ps[n]|)]
  {}

  lemma {:induction false} TableAt(ps: seq<seq<byte>>, i: nat)
    requires i < |ps|
    ensures TableOf(ps)[i] == Bounds(16 + |Body(ps[..i])|, 16 + |ps[i]|)
    decreases |ps|
  {
    var n := |ps| - 1;
    TableLast(ps, n);
    if i < n {
      TableAt(ps[..n], i);
      assert ps[..n][..i] == ps[..i];
    }
  }

  lemma {:induction false} BodySlice(ps: seq<seq<byte>>, i: nat, c: seq<byte>, x: nat, hi: nat)
    requires i < |ps| && c == Zeros(16) + ps[i] && x == |Body(ps[..i])| && hi == x + |c|
    ensures hi <= |Body(ps)| && Body(ps)[x..hi] == c
    decreases |ps|
  {
    var n := |ps| - 1;
    var last := Zeros(16) + ps[n];
    BodyLast(ps, n, last, |Body(ps[..n])|);
    if i < n {
      assert ps[..n][..i] == ps[..i];
      BodySlice(ps[..n], i, c, x, hi);
      PrefixSlice(Body(ps[..n]), last, x, hi);
    }
  }

  lemma {:induction false} TableEntry(t: seq<Bounds>, i: nat, at: nat)
    requires i < |t| && at == 8 * i
    ensures at + 8 <= |TableBytes(t)| && TableBytes(t)[at..at + 8] == EntryBytes(t[i])
    decreases |t|
  {
    var n := |t| - 1;
    if i < n {
      TableEntry(t[..n], i, at);
      PrefixSlice(TableBytes(t[..n]), EntryBytes(t[n]), at, at + 8);
    }
  }

  lemma PrefixSlice(b: seq<byte>, tail: seq<byte>, i: nat, j: nat)
    requires i <= j <= |b|
    ensures (b + tail)[i..j] == b[i..j]
  {}

  lemma SuffixSlice(a: seq<byte>, b: seq<byte>, i: nat, j: nat, lo: nat, hi: nat)
    requires i <= j <= |b| && lo == |a| + i && hi == |a| + j
    ensures (a + b)[lo..hi] == b[i..j]
  {
    forall k | 0 <= k < j - i ensures (a + b)[lo..hi][k] == b[i..j][k] {
      assert (a + b)[lo + k] == b[i + k];
    }
  }

  lemma FirstFields(seqno: nat, length: nat, extra: nat, next: nat)
    ensures var s := ADBH + Le16(0) + Le16(seqno) + Le16(length) + Le16(extra) + Le32(next);
      s[0..4] == ADBH && s[8..10] == Le16(length) && s[12..14] == Le16(next) && s[12..16] == Le32(next)
  {}

  lemma AdthFields(length: nat, extra: nat)
    ensures var s := ADTH + Le16(length) + Le16(extra) + Le32(0);
      s[0..4] == ADTH && s[4..6] == Le16(length)
  {}

  lemma FirstSectionFields(b: seq<byte>, h: Heading, tags: seq<Tag>, offs: seq<nat>)
    requires Chain(b, h, tags, offs) && tags[0].name == ADBH
    ensures var o := NextOf(offs, 0);
      && 16 + |tags[0].payload| <= |b|
      && b[0..4] == ADBH && b[8..10] == Le16(h.length) && b[12..14] == Le16(o) && b[12..16] == Le32(o)
      && b[16..16 + |tags[0].payload|] == tags[0].payload
  {
    assert SectionAt(b, h, tags, offs, 0);
    FirstFields(h.seqno, h.length, h.extra, NextOf(offs, 0));
    var s := Header(h, tags, 0, NextOf(offs, 0));
    SliceFrom(b, 0, 16, s, 0, 4, 0, 4);
    SliceFrom(b, 0, 16, s, 8, 10, 8, 10);
    SliceFrom(b, 0, 16, s, 12, 14, 12, 14);
    SliceFrom(b, 0, 16, s, 12, 16, 12, 16);
  }

  lemma AdthSectionFields(b: seq<byte>, h: Heading, tags: seq<Tag>, offs: seq<nat>, length: nat)
    requires Chain(b, h, tags, offs) && |tags| == 2 && tags[1].name == ADTH
    requires length == 12 + |tags[1].payload|
    ensures var o := offs[1];
      && o + length == |b|
      && b[o..o + 4] == ADTH && b[o + 4..o + 6] == Le16(length)
      && b[o + 12..|b|] == tags[1].payload
  {
    var o := offs[1];
    assert SectionAt(b, h, tags, offs, 1);
    AdthFields(length, tags[1].extra);
    var s := Header(h, tags, 1, 0);
    SliceFrom(b, o, o + 12, s, 0, 4, o, o + 4);
    SliceFrom(b, o, o + 12, s, 4, 6, o + 4, o + 6);
  }

  // What the readers of an uplink frame look at; o is where its ADTH section starts.
  ghost predicate Layout(b: seq<byte>, ps: seq<seq<byte>>, o: nat) {
    && 16 + |Body(ps)| <= o && |b| == o + 16 + 8 * |ps|
    && b[0..4] == ADBH && b[8..10] == Le16(|b|) && b[12..14] == Le16(o) && b[12..16] == Le32(o)
    && b[16..16 + |Body(ps)|] == Body(ps)
    && b[o..o + 4] == ADTH && b[o + 4..o + 6] == Le16(16 + 8 * |ps|)
    && b[o + 12..|b|] == Le32(0) + TableBytes(TableOf(ps))
  }

  lemma TrailerIs(channel: nat, ps: seq<seq<byte>>)
    ensures FrameTags(channel, ps)[1].payload == Le32(0) + TableBytes(TableOf(ps))
  {}

  lemma FirstLayout(b: seq<byte>, seqno: nat, channel: nat, ps: seq<seq<byte>>, o: nat)
    requires NetFrame(b, seqno, channel, ps) && o == AdthOffset(ps)
    ensures 16 + |Body(ps)| <= |b|
    ensures b[0..4] == ADBH && b[8..10] == Le16(|b|) && b[12..14] == Le16(o) && b[12..16] == Le32(o)
    ensures b[16..16 + |Body(ps)|] == Body(ps)
  {
    FirstSectionFields(b, Heading(seqno, |b|, 0), FrameTags(channel, ps), [0, o]);
  }

  lemma AdthLayout(b: seq<byte>, seqno: nat, channel: nat, ps: seq<seq<byte>>, o: nat, length: nat)
    requires NetFrame(b, seqno, channel, ps) && o == AdthOffset(ps) && length == 16 + 8 * |ps|
    ensures |b| == o + length
    ensures b[o..o + 4] == ADTH && b[o + 4..o + 6] == Le16(length)
    ensures b[o + 12..|b|] == FrameTags(channel, ps)[1].payload
  {
    AdthSectionFields(b, Heading(seqno, |b|, 0), FrameTags(channel, ps), [0, o], length);
  }

  lemma FrameLayout(b: seq<byte>, seqno: nat, channel: nat, ps: seq<seq<byte>>)
    requires NetFrame(b, seqno, channel, ps)
    ensures Layout(b, ps, AdthOffset(ps)) && |b| == FrameSize(ps)
  {
    FirstLayout(b, seqno, channel, ps, AdthOffset(ps));
    AdthLayout(b, seqno, channel, ps, AdthOffset(ps), 16 + 8 * |ps|);
    TrailerIs(channel, ps);
  }

  lemma EntryFields(offset: nat, length: nat)
    ensures var s := Le32(offset) + Le32(length); s[0..4] == Le32(offset) && s[4..8] == Le32(length)
  {}

  lemma BoundsInPlace(b: seq<byte>, pos: nat, hi: nat, offset: nat, length: nat)
    requires hi == pos + 8 <= |b| && b[pos..hi] == Le32(offset) + Le32(length)
    requires offset < 0x1_0000_0000 && length < 0x1_0000_0000
    ensures ReadBounds(b, pos) == Bounds(offset, length)
  {
    EntryFields(offset, length);
    var s := Le32(offset) + Le32(length);
    SliceFrom(b, pos, hi, s, 0, 4, pos, pos + 4);
    SliceFrom(b, pos, hi, s, 4, 8, pos + 4, pos + 8);
    Le32RoundTrip(offset);
    Le32RoundTrip(length);
  }

  lemma BehindLead(b: seq<byte>, o: nat, lead: seq<byte>, t: seq<byte>, i: nat, j: nat, lo: nat, hi: nat)
    requires o <= |b| && b[o..|b|] == lead + t && i <= j <= |t| && lo == o + |lead| + i && hi == o + |lead| + j
    ensures hi <= |b| && b[lo..hi] == t[i..j]
  {
    SuffixSlice(lead, t, i, j, |lead| + i, |lead| + j);
    SliceFrom(b, o, |b|, lead + t, |lead| + i, |lead| + j, lo, hi);
  }

  function EntryBytes(e: Bounds): (s: seq<byte>)
    ensures |s| == 8
  {
    Le32(e.offset) + Le32(e.length)
  }

  lemma EntryBehind(b: seq<byte>, o: nat, lead: seq<byte>, t: seq<Bounds>, i: nat, at: nat, lo: nat, hi: nat)
    requires o <= |b| && b[o..|b|] == lead + TableBytes(t) && i < |t| && at == 8 * i
    requires lo == o + |lead| + at && hi == lo + 8
    ensures hi <= |b| && b[lo..hi] == EntryBytes(t[i])
  {
    TableEntry(t, i, at);
    BehindLead(b, o, lead, TableBytes(t), at, at + 8, lo, hi);
  }

  // Entry i of the frame's table, as numbers.
  lemma FrameBounds(b: seq<byte>, ps: seq<seq<byte>>, o: nat, i: nat, pos: nat, e: Bounds)
    requires Layout(b, ps, o) && i < |ps| && pos == o + 16 + 8 * i
    requires e == TableOf(ps)[i] && e.offset < 0x1_0000_0000 && e.length < 0x1_0000_0000
    ensures pos + 8 <= |b| && ReadBounds(b, pos) == e
  {
    TableBounds(b, o + 12, Le32(0), TableOf(ps), i, e, pos);
  }

  lemma TableBounds(b: seq<byte>, o: nat, lead: seq<byte>, t: seq<Bounds>, i: nat, e: Bounds, pos: nat)
    requires o <= |b| && b[o..|b|] == lead + TableBytes(t) && i < |t| && pos == o + |lead| + 8 * i
    requires e == t[i] && e.offset < 0x1_0000_0000 && e.length < 0x1_0000_0000
    ensures pos + 8 <= |b| && ReadBounds(b, pos) == e
  {
    EntryBehind(b, o, lead, t, i, 8 * i, pos, pos + 8);
    BoundsInPlace(b, pos, pos + 8, e.offset, e.length);
  }

  // The region entry i points at.
  lemma FrameRegion(b: seq<byte>, ps: seq<seq<byte>>, o: nat, i: nat, e: Bounds, c: seq<byte>, end: nat)
    requires Layout(b, ps, o) && i < |ps| && e == TableOf(ps)[i] && c == Zeros(16) + ps[i] && end == e.offset + e.length
    ensures end <= |b| && b[e.offset..end] == c && e.length == |c|
  {
    BodyRegion(b, ps, i, e, c, end, 16 + |Body(ps)|);
  }

  lemma BodyRegion(b: seq<byte>, ps: seq<seq<byte>>, i: nat, e: Bounds, c: seq<byte>, end: nat, upTo: nat)
    requires upTo == 16 + |Body(ps)| <= |b| && b[16..upTo] == Body(ps)
    requires i < |ps| && e == TableOf(ps)[i] && c == Zeros(16) + ps[i] && end == e.offset + e.length
    ensures end <= |b| && b[e.offset..end] == c && e.length == |c|
  {
    var x := |Body(ps[..i])|;
    TableAt(ps, i);
    BodySlice(ps, i, c, x, x + |c|);
    SliceFrom(b, 16, upTo, Body(ps), x, x + |c|, e.offset, end);
  }

  lemma FrameEntry(b: seq<byte>, ps: seq<seq<byte>>, o: nat, tail: seq<byte>, i: nat, pos: nat)
    requires Layout(b, ps, o) && |b| < 0x1_0000_0000 && i < |ps| && pos == o + 16 + 8 * i
    ensures ReadRegion(b + tail, pos) == Some(Zeros(16) + ps[i])
  {
    var e := TableOf(ps)[i];
    FrameRegion(b, ps, o, i, e, Zeros(16) + ps[i], e.offset + e.length);
    FrameBounds(b, ps, o, i, pos, e);
    PrefixSlice(b, tail, pos, pos + 4);
    PrefixSlice(b, tail, pos + 4, pos + 8);
    PrefixSlice(b, tail, e.offset, e.offset + e.length);
  }

  lemma {:induction false} FrameEntries(b: seq<byte>, ps: seq<seq<byte>>, o: nat, tail: seq<byte>, pos: nat, i: nat)
    requires Layout(b, ps, o) && |b| < 0x1_0000_0000 && i <= |ps| && pos == o + 16 + 8 * i
    ensures ReadRegions(b + tail, pos, |ps| - i) == Some(Padded(ps)[i..])
    decreases |ps| - i
  {
    if i < |ps| {
      FrameEntry(b, ps, o, tail, i, pos);
      FrameEntries(b, ps, o, tail, pos + 8, i + 1);
      ReadStep(b + tail, pos, |ps| - i);
      assert |ps| - i - 1 == |ps| - (i + 1);
      assert Padded(ps)[i..] == [Padded(ps)[i]] + Padded(ps)[i + 1..];
    } else {
      assert Padded(ps)[i..] == [];
    }
  }

  lemma FullTable(n: nat)
    requires 16 + 8 * n < 0x1_0000
    ensures CountEntries(16 + 8 * n) == n
  {
    CountEntriesMeans(16 + 8 * n);
  }

  // From the ADTH header on, once its fields are known.
  lemma RegionsFromFields(d: seq<byte>, o: nat, n: nat, rs: seq<seq<byte>>)
    requires o + 12 <= |d| && d[o..o + 4] == ADTH && d[o + 4..o + 6] == Le16(16 + 8 * n)
    requires 16 + 8 * n < 0x1_0000 && ReadRegions(d, o + 16, n) == Some(rs)
    ensures RegionsAt(d, o) == Some(rs)
  {
    Le16RoundTrip(16 + 8 * n);
    FullTable(n);
  }

  lemma AdthRoundTrip(b: seq<byte>, ps: seq<seq<byte>>, o: nat, tail: seq<byte>)
    requires Layout(b, ps, o) && |b| < 0x1_0000
    ensures RegionsAt(b + tail, o) == Some(Padded(ps))
  {
    PrefixSlice(b, tail, o, o + 4);
    PrefixSlice(b, tail, o + 4, o + 6);
    FrameEntries(b, ps, o, tail, o + 16, 0);
    assert Padded(ps)[0..] == Padded(ps);
    RegionsFromFields(b + tail, o, |ps|, Padded(ps));
  }

  lemma LayoutRoundTrip(b: seq<byte>, ps: seq<seq<byte>>, o: nat, tail: seq<byte>)
    requires Layout(b, ps, o) && |b| < 0x1_0000
    ensures KernelRegions(b + tail) == UserRegions(b + tail) == Some(Padded(ps))
  {
    AdthRoundTrip(b, ps, o, tail);
    PrefixSlice(b, tail, 0, 4);
    PrefixSlice(b, tail, 12, 14);
    PrefixSlice(b, tail, 12, 16);
    Le16RoundTrip(o);
    Le32RoundTrip(o);
  }

  /** Both C readers get back every packet behind its 16 zero bytes, whatever lies in the page behind the frame. */
  lemma FrameRoundTrip(b: seq<byte>, seqno: nat, channel: nat, ps: seq<seq<byte>>, tail: seq<byte>)
    requires NetFrame(b, seqno, channel, ps) && |b| < 0x1_0000
    ensures KernelRegions(b + tail) == UserRegions(b + tail) == Some(Padded(ps))
    ensures |b| == FrameSize(ps) && b[8..10] == Le16(|b|) && b[12..14] == Le16(AdthOffset(ps))
  {
    FrameLayout(b, seqno, channel, ps);
    LayoutRoundTrip(b, ps, AdthOffset(ps), tail);
  }

  // Delivery to the network stack: empty regions are skipped, and the first that is not IP ends the frame.
  function Delivered(rs: seq<seq<byte>>): seq<seq<byte>> {
    if rs == [] then []
    else if rs[0] == [] then Delivered(rs[1..])
    else if rs[0][0] as int / 16 != 4 && rs[0][0] as int / 16 != 6 then []
    else [rs[0]] + Delivered(rs[1..])
  }

  /** The driver's own receiver hands nothing of an uplink frame to the stack: its regions start with zero bytes. */
  lemma UplinkNotDelivered(b: seq<byte>, seqno: nat, channel: nat, ps: seq<seq<byte>>)
    requires NetFrame(b, seqno, channel, ps) && |b| < 0x1_0000
    ensures KernelRegions(b).Some? && Delivered(KernelRegions(b).value) == []
  {
    FrameRoundTrip(b, seqno, channel, ps, []);
    assert b + [] == b;
  }

  lemma ReadStep(data: seq<byte>, pos: nat, n: nat)
    requires n > 0
    ensures ReadRegion(data, pos).None? ==> ReadRegions(data, pos, n).None?
    ensures var rest := ReadRegions(data, pos + 8, n - 1);
      ReadRegion(data, pos).Some? ==>
        if rest.None? then ReadRegions(data, pos, n).None?
        else ReadRegions(data, pos, n) == Some([ReadRegion(data, pos).value] + rest.value)
  {}

  // The regions before the first that lies outside the page.
  function Readable(data: seq<byte>, pos: nat, n: nat): (rs: seq<seq<byte>>)
    ensures |rs| <= n
    decreases n
  {
    if n == 0 || ReadRegion(data, pos).None? then []
    else [ReadRegion(data, pos).value] + Readable(data, pos + 8, n - 1)
  }

  lemma {:induction false} ReadableIsAll(data: seq<byte>, pos: nat, n: nat)
    ensures ReadRegions(data, pos, n) == if |Readable(data, pos, n)| == n then Some(Readable(data, pos, n)) else None
    decreases n
  {
    if n > 0 {
      ReadableIsAll(data, pos + 8, n - 1);
      ReadStep(data, pos, n);
    }
  }

  // A region that is not IP, behind which nothing is looked at.
  predicate Stop(r: seq<byte>) {
    r != [] && r[0] as int / 16 != 4 && r[0] as int / 16 != 6
  }

  predicate Stops(rs: seq<seq<byte>>) {
    exists r :: r in rs && Stop(r)
  }

  lemma DeliveredStep(r: seq<byte>, rest: seq<seq<byte>>)
    ensures Delivered([r] + rest) == if Stop(r) then [] else if r == [] then Delivered(rest) else [r] + Delivered(rest)
    ensures Stops([r] + rest) <==> Stop(r) || Stops(rest)
  {
    assert ([r] + rest)[1..] == rest;
    assert forall x :: x in [r] + rest <==> x == r || x in rest;
  }

  lemma TableStep(left: seq<seq<byte>>, r: seq<byte>, rest: seq<seq<byte>>, skbs: seq<seq<byte>>, more: seq<seq<byte>>)
    requires left == [r] + rest && more == if Stop(r) || r == [] then skbs else skbs + [r]
    ensures Stops(left) <==> Stop(r) || Stops(rest)
    ensures skbs + Delivered(left) == if Stop(r) then skbs else more + Delivered(rest)
  {
    DeliveredStep(r, rest);
    ConcatAssociates(skbs, [r], Delivered(rest));
  }

  /** The receiving loop of the driver; false stands for a read outside the page, which happens exactly if a region
      lies there and none before it stops the loop. */
  method DeliverTable(data: seq<byte>, table: nat, n: int) returns (ok: bool, skbs: seq<seq<byte>>)
    requires n >= 0
    ensures var rs := Readable(data, table, n); skbs == Delivered(rs) && (ok <==> |rs| == n || Stops(rs))
  {
    ok, skbs := true, [];
    ghost var all := Readable(data, table, n);
    ghost var left := all;
    var i, pos := 0, table;
    while i < n
      invariant 0 <= i <= n && left == Readable(data, pos, n - i) && ok && (|all| == n <==> |left| == n - i)
      invariant Delivered(all) == skbs + Delivered(left) && (Stops(all) <==> Stops(left))
    {
      var r := ReadRegion(data, pos);
      if r == None {
        return false, skbs;
      }
      ghost var rest, was := Readable(data, pos + 8, n - i - 1), skbs;
      i, pos := i + 1, pos + 8;
      var stop;
      stop, skbs := Receive(r.value, skbs);
      TableStep(left, r.value, rest, was, skbs);
      left := rest;
      if stop {
        return;
      }
    }
  }

  // What becomes of one region.
  method Receive(region: seq<byte>, done: seq<seq<byte>>) returns (stop: bool, skbs: seq<seq<byte>>)
    ensures stop == Stop(region)
    ensures skbs == if stop || region == [] then done else done + [region]
  {
    stop, skbs := false, done;
    if region != [] {
      var version := region[0] as int / 16;
      if version != 4 && version != 6 {
        return true, done;
      }
      skbs := done + [region];
    }
  }


  // ----- pages from the network side

  // A region that the receiver hands on: IPv4 or IPv6, by its first byte.
  predicate Ip(r: seq<byte>) {
    r != [] && (0x40 <= r[0] as int < 0x50 || 0x60 <= r[0] as int < 0x70)
  }

  ghost predicate IpOnly(rs: seq<seq<byte>>) {
    forall r :: r in rs ==> r == [] || Ip(r)
  }

  /** All regions of IP packets are delivered, without the empty ones, up to the first region that is something else. */
  lemma {:induction false} IpDelivered(rs: seq<seq<byte>>, rest: seq<seq<byte>>, all: seq<seq<byte>>)
    requires IpOnly(rs) && (rest == [] || (rest[0] != [] && !Ip(rest[0]))) && all == rs + rest
    ensures Delivered(all) == NonEmpty(rs)
    ensures Stops(all) <==> rest != []
    decreases |rs|
  {
    if rs == [] {
      assert all == rest;
      if rest != [] {
        DeliveredStep(rest[0], rest[1..]);
        assert rest == [rest[0]] + rest[1..];
      }
    } else {
      var r, tail := rs[0], rs[1..];
      IpTail(rs);
      IpDelivered(tail, rest, tail + rest);
      DeliveredStep(r, tail + rest);
      assert all == [r] + (tail + rest);
    }
  }

  lemma IpTail(rs: seq<seq<byte>>)
    requires IpOnly(rs) && rs != []
    ensures (rs[0] == [] || Ip(rs[0])) && !Stop(rs[0]) && IpOnly(rs[1..])
  {
    assert rs[0] in rs;
  }

  // A page written by the modem: a first header whose next field leads to an ADTH section, and that section's table,
  // which tells where each region lies.
  ghost predicate Page(data: seq<byte>, next: nat, offs: seq<nat>, rs: seq<seq<byte>>) {
    && |offs| == |rs| && 16 <= |data| && next + 16 + 8 * |rs| <= |data|
    && data[0..4] == [0x41, 0x44, 0x42, 0x48] && Get16(data, 12) == next
    && data[next..next + 4] == [0x41, 0x44, 0x54, 0x48] && Get16(data, next + 4) == 16 + 8 * |rs|
    && forall i :: 0 <= i < |rs| ==> Listed(data, next, offs, rs, i)
  }

  ghost predicate Listed(data: seq<byte>, next: nat, offs: seq<nat>, rs: seq<seq<byte>>, i: nat)
    requires i < |offs| == |rs| && next + 16 + 8 * |rs| <= |data|
  {
    Entry(data, next + 16 + 8 * i, offs[i], rs[i])
  }

  ghost predicate Entry(data: seq<byte>, at: nat, offset: nat, r: seq<byte>)
    requires at + 8 <= |data|
  {
    && Get32(data, at) == offset && Get32(data, at + 4) == |r|
    && (r != [] ==> offset + |r| <= |data| && data[offset..offset + |r|] == r)
  }

  lemma EntryRead(data: seq<byte>, at: nat, offset: nat, r: seq<byte>)
    requires at + 8 <= |data| && Entry(data, at, offset, r)
    ensures ReadRegion(data, at) == Some(r) && ReadBounds(data, at) == Bounds(offset, |r|)
  {
    var b := ReadBounds(data, at);
    assert b.offset == Get32(data, at) && b.length == Get32(data, at + 4);
  }

  lemma {:induction false} PageTable(data: seq<byte>, next: nat, offs: seq<nat>, rs: seq<seq<byte>>, i: nat, at: nat)
    requires Page(data, next, offs, rs) && i <= |rs| && at == next + 16 + 8 * i
    ensures ReadRegions(data, at, |rs| - i) == Some(rs[i..])
    decreases |rs| - i
  {
    if i < |rs| {
      assert Listed(data, next, offs, rs, i);
      EntryRead(data, at, offs[i], rs[i]);
      PageTable(data, next, offs, rs, i + 1, at + 8);
      ReadStep(data, at, |rs| - i);
      assert rs[i..] == [rs[i]] + rs[i + 1..];
    } else {
      assert rs[i..] == [];
    }
  }

  lemma ReadNumber(data: seq<byte>, at: nat, end: nat)
    requires end == at + 2 <= |data|
    ensures FromLe16(data[at..end]) == Get16(data, at)
  {}

  lemma ReadLong(data: seq<byte>, at: nat, end: nat)
    requires end == at + 4 <= |data| && data[at + 2] == data[at + 3] == 0
    ensures FromLe32(data[at..end]) == Get16(data, at)
  {}

  lemma PageAdth(data: seq<byte>, next: nat, offs: seq<nat>, rs: seq<seq<byte>>)
    requires Page(data, next, offs, rs)
    ensures RegionsAt(data, next) == Some(rs)
  {
    PageTable(data, next, offs, rs, 0, next + 16);
    assert rs[0..] == rs;
    FullTable(|rs|);
    ReadNumber(data, next + 4, next + 6);
  }

  /** On every such page, not only on frames of the builders, both C readers find exactly the regions of the table. */
  lemma PageRegions(data: seq<byte>, next: nat, offs: seq<nat>, rs: seq<seq<byte>>)
    requires Page(data, next, offs, rs)
    ensures KernelRegions(data) == Some(rs)
    ensures data[14] == data[15] == 0 ==> UserRegions(data) == Some(rs)
  {
    PageAdth(data, next, offs, rs);
    ReadNumber(data, 12, 14);
    assert data[..4] == data[0..4];
    if data[14] == data[15] == 0 {
      ReadLong(data, 12, 16);
    }
  }

  // The regions that can be read, on any page.
  function KernelReadable(data: seq<byte>): seq<seq<byte>> {
    if |data| < 16 || data[..4] != ADBH then []
    else
      var next := FromLe16(data[12..14]);
      if next + 12 > |data| || data[next..next + 4] != ADTH then []
      else
        var n := CountEntries(FromLe16(data[next + 4..next + 6]));
        if n <= 0 then [] else Readable(data, next + 16, n)
  }

  /** On any page the readable regions before the first that is not IP are delivered, in order and without the empty
      ones; the loop reads outside the page exactly if nothing stops it before. */
  method HandleFrame(data: seq<byte>) returns (ok: bool, skbs: seq<seq<byte>>)
    ensures skbs == Delivered(KernelReadable(data))
    ensures ok <==> KernelRegions(data).Some? || Stops(KernelReadable(data))
    ensures KernelRegions(data).Some? ==> KernelRegions(data).value == KernelReadable(data)
    ensures forall next, offs, rs, rest :: Page(data, next, offs, rs + rest)
              && IpOnly(rs) && (rest == [] || (rest[0] != [] && !Ip(rest[0])))
              ==> ok && skbs == NonEmpty(rs)
  {
    forall next, offs, rs: seq<seq<byte>>, rest | Page(data, next, offs, rs + rest)
      && IpOnly(rs) && (rest == [] || (rest[0] != [] && !Ip(rest[0])))
      ensures KernelRegions(data) == Some(rs + rest) && Delivered(rs + rest) == NonEmpty(rs)
    {
      PageRegions(data, next, offs, rs + rest);
      IpDelivered(rs, rest, rs + rest);
    }
    ok, skbs := true, [];
    if |data| < 16 {
      return false, [];
    }
    if data[..4] != ADBH {
      return;
    }
    var next := FromLe16(data[12..14]);
    if next + 12 > |data| {
      return false, [];
    }
    if data[next..next + 4] != ADTH {
      return;
    }
    var n := CountEntries(FromLe16(data[next + 4..next + 6]));
    if n > 0 {
      ReadableIsAll(data, next + 16, n);
      ok, skbs := DeliverTable(data, next + 16, n);
    }
  }
}
