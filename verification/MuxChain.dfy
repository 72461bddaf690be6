/** The mux wire format: a chain of tagged sections, each header pointing at the next. */
module MuxChain {
  import opened Bytes

  const ACBH: seq<byte> := [0x41, 0x43, 0x42, 0x48]
  const ADBH: seq<byte> := [0x41, 0x44, 0x42, 0x48]
  const ADTH: seq<byte> := [0x41, 0x44, 0x54, 0x48]
  const CMDH: seq<byte> := [0x43, 0x4d, 0x44, 0x48]

  datatype Tag = Tag(name: seq<byte>, extra: nat, payload: seq<byte>)

  // The first section carries a sequence number, and its length and extra fields are rewritten at the end.
  datatype Heading = Heading(seqno: nat, length: nat, extra: nat)

  function Align4(n: nat): (r: nat)
    ensures r % 4 == 0 && n <= r < n + 4
  {
    (n + 3) / 4 * 4
  }

  function HeaderLen(first: bool): nat {
    if first then 16 else 12
  }

  function Header(h: Heading, tags: seq<Tag>, k: nat, next: nat): (s: seq<byte>)
    requires k < |tags| && |tags[k].name| == 4
    ensures |s| == HeaderLen(k == 0)
  {
    if k == 0 then tags[k].name + Le16(0) + Le16(h.seqno) + Le16(h.length) + Le16(h.extra) + Le32(next)
    else tags[k].name + Le16(12 + |tags[k].payload|) + Le16(tags[k].extra) + Le32(next)
  }

  ghost predicate Shaped(tags: seq<Tag>, offs: seq<nat>) {
    && 0 < |tags| == |offs| && offs[0] == 0
    && (forall t :: t in tags ==> |t.name| == 4)
    && (forall k :: 0 <= k < |tags| - 1 ==> Abuts(tags, offs, k))
  }

  // Section k + 1 starts at the first aligned offset behind section k.
  ghost predicate Abuts(tags: seq<Tag>, offs: seq<nat>, k: nat)
    requires k + 1 < |tags| == |offs|
  {
    offs[k + 1] == Align4(End(tags, offs, k))
  }

  function Data(offs: seq<nat>, k: nat): nat
    requires k < |offs|
  {
    offs[k] + HeaderLen(k == 0)
  }

  function End(tags: seq<Tag>, offs: seq<nat>, k: nat): nat
    requires k < |tags| == |offs|
  {
    Data(offs, k) + |tags[k].payload|
  }

  function NextOf(offs: seq<nat>, k: nat): nat
    requires k < |offs|
  {
    if k + 1 < |offs| then offs[k + 1] else 0
  }

  ghost predicate SectionAt(b: seq<byte>, h: Heading, tags: seq<Tag>, offs: seq<nat>, k: nat)
    requires Shaped(tags, offs) && k < |tags|
  {
    && End(tags, offs, k) <= |b|
    && b[offs[k]..Data(offs, k)] == Header(h, tags, k, NextOf(offs, k))
    && b[Data(offs, k)..End(tags, offs, k)] == tags[k].payload
  }

  /** b is the chain of these tags at these offsets; only alignment gaps are left open. */
  ghost predicate Chain(b: seq<byte>, h: Heading, tags: seq<Tag>, offs: seq<nat>) {
    && Shaped(tags, offs)
    && |b| == End(tags, offs, |tags| - 1)
    && forall k :: 0 <= k < |tags| ==> SectionAt(b, h, tags, offs, k)
  }

  function Splice(b: seq<byte>, pos: nat, v: seq<byte>): (r: seq<byte>)
    requires pos + |v| <= |b|
    ensures |r| == |b|
  {
    b[..pos] + v + b[pos + |v|..]
  }

  // A slice of a known slice, with its bounds as the caller writes them.
  lemma SliceFrom(b: seq<byte>, i: nat, j: nat, s: seq<byte>, x: nat, y: nat, lo: nat, hi: nat)
    requires i <= j <= |b| && b[i..j] == s && x <= y <= |s| && lo == i + x && hi == i + y
    ensures hi <= |b| && b[lo..hi] == s[x..y]
  {
    forall k | 0 <= k < y - x ensures b[lo..hi][k] == s[x..y][k] {
      assert s[x..y][k] == b[i..j][x + k] == b[i + (x + k)];
    }
  }

  lemma SpliceApart(b: seq<byte>, pos: nat, v: seq<byte>, i: nat, j: nat)
    requires pos + |v| <= |b| && i <= j <= |b|
    requires j <= pos || pos + |v| <= i
    ensures Splice(b, pos, v)[i..j] == b[i..j]
  {}

  lemma SpliceInside(b: seq<byte>, pos: nat, v: seq<byte>, i: nat, j: nat)
    requires i <= pos && pos + |v| <= j <= |b|
    ensures Splice(b, pos, v)[i..j] == Splice(b[i..j], pos - i, v)
  {}

  // Where the header of the last section keeps its length and its next field.
  function LengthPos(offs: seq<nat>): nat
    requires |offs| > 0
  {
    Data(offs, |offs| - 1) - 8
  }

  function NextPos(offs: seq<nat>): nat
    requires |offs| > 0
  {
    Data(offs, |offs| - 1) - 4
  }

  /** Starting a chain. */
  lemma ChainOfOne(h: Heading, t: Tag)
    requires |t.name| == 4
    ensures Chain(Header(h, [t], 0, 0) + t.payload, h, [t], [0])
  {
    var b := Header(h, [t], 0, 0) + t.payload;
    assert b[0..16] == Header(h, [t], 0, 0);
    assert b[16..] == t.payload;
    assert SectionAt(b, h, [t], [0], 0);
  }

  lemma {:induction false} Before(tags: seq<Tag>, offs: seq<nat>, j: nat, k: nat)
    requires Shaped(tags, offs) && j < k < |tags|
    ensures End(tags, offs, j) <= offs[k]
    decreases k
  {
    assert Abuts(tags, offs, k - 1);
    if j < k - 1 {
      Before(tags, offs, j, k - 1);
    }
  }

  lemma ShapedExtend(tags: seq<Tag>, offs: seq<nat>, t: Tag)
    requires Shaped(tags, offs) && |t.name| == 4
    ensures Shaped(tags + [t], offs + [Align4(End(tags, offs, |tags| - 1))])
  {
    var tags', offs' := tags + [t], offs + [Align4(End(tags, offs, |tags| - 1))];
    forall k | 0 <= k < |tags'| - 1 ensures Abuts(tags', offs', k) {
      assert k < |tags| - 1 ==> Abuts(tags, offs, k);
    }
  }

  /** A section is still in place where neither it nor its header fields changed. */
  lemma SectionKept(b: seq<byte>, h: Heading, tags: seq<Tag>, offs: seq<nat>,
                    b': seq<byte>, h': Heading, tags': seq<Tag>, offs': seq<nat>, k: nat)
    requires Shaped(tags, offs) && Shaped(tags', offs') && k < |tags| && k < |tags'|
    requires SectionAt(b, h, tags, offs, k)
    requires tags'[k] == tags[k] && offs'[k] == offs[k] && NextOf(offs', k) == NextOf(offs, k)
    requires k == 0 ==> h' == h
    requires End(tags, offs, k) <= |b'| && b'[offs[k]..End(tags, offs, k)] == b[offs[k]..End(tags, offs, k)]
    ensures SectionAt(b', h', tags', offs', k)
  {
    var o, d, e := offs[k], Data(offs, k), End(tags, offs, k);
    assert b[o..d] == b[o..e][..d - o] == b'[o..e][..d - o] == b'[o..d];
    assert b[d..e] == b[o..e][d - o..] == b'[o..e][d - o..] == b'[d..e];
  }

  lemma LastSectionRelinked(b: seq<byte>, h: Heading, tags: seq<Tag>, offs: seq<nat>, t: Tag, o: nat, tail: seq<byte>)
    requires Chain(b, h, tags, offs) && Shaped(tags + [t], offs + [o])
    ensures NextPos(offs) + 4 <= |b|
    ensures SectionAt(Splice(b, NextPos(offs), Le32(o)) + tail, h, tags + [t], offs + [o], |tags| - 1)
  {
    var k := |tags| - 1;
    assert SectionAt(b, h, tags, offs, k);
    var p := Splice(b, NextPos(offs), Le32(o));
    var d, e := Data(offs, k), End(tags, offs, k);
    assert (p + tail)[offs[k]..d] == p[offs[k]..d];
    assert (p + tail)[d..e] == p[d..e];
    SpliceApart(b, NextPos(offs), Le32(o), d, e);
    SpliceInside(b, NextPos(offs), Le32(o), offs[k], d);
    assert Splice(Header(h, tags, k, 0), HeaderLen(k == 0) - 4, Le32(o)) == Header(h, tags + [t], k, o);
  }

  lemma EarlierSectionsKept(b: seq<byte>, h: Heading, tags: seq<Tag>, offs: seq<nat>, t: Tag, o: nat,
                            tail: seq<byte>, k: nat)
    requires Chain(b, h, tags, offs) && Shaped(tags + [t], offs + [o]) && k < |tags| - 1
    ensures NextPos(offs) + 4 <= |b|
    ensures SectionAt(Splice(b, NextPos(offs), Le32(o)) + tail, h, tags + [t], offs + [o], k)
  {
    var p, e := Splice(b, NextPos(offs), Le32(o)), End(tags, offs, k);
    assert SectionAt(b, h, tags, offs, k);
    Before(tags, offs, k, |tags| - 1);
    SpliceApart(b, NextPos(offs), Le32(o), offs[k], e);
    assert (p + tail)[offs[k]..e] == p[offs[k]..e];
    SectionKept(b, h, tags, offs, p + tail, h, tags + [t], offs + [o], k);
  }

  lemma NewSection(p: seq<byte>, gap: seq<byte>, hdr: seq<byte>, payload: seq<byte>, o: nat, d: nat)
    requires o == |p| + |gap| && d == o + |hdr|
    ensures var b := p + (gap + (hdr + payload)); b[o..d] == hdr && b[d..] == payload && |b| == d + |payload|
  {
    var b := p + (gap + (hdr + payload));
    assert b[o..] == hdr + payload;
    assert b[o..d] == b[o..][..|hdr|] && b[d..] == b[o..][|hdr|..];
  }

  /** Adding a section: patch the last next field, fill up to alignment with anything, append header and data. */
  lemma ChainExtend(b: seq<byte>, h: Heading, tags: seq<Tag>, offs: seq<nat>, gap: seq<byte>, t: Tag)
    requires Chain(b, h, tags, offs) && |t.name| == 4
    requires |b| + |gap| == Align4(|b|)
    ensures NextPos(offs) + 4 <= |b|
    ensures var tags' := tags + [t];
      Chain(Splice(b, NextPos(offs), Le32(|b| + |gap|)) + (gap + (Header(h, tags', |tags|, 0) + t.payload)),
            h, tags', offs + [|b| + |gap|])
  {
    var n, o, hdr := |tags|, |b| + |gap|, Header(h, tags + [t], |tags|, 0);
    ShapedExtend(tags, offs, t);
    var tail := gap + (hdr + t.payload);
    LastSectionRelinked(b, h, tags, offs, t, o, tail);
    var p := Splice(b, NextPos(offs), Le32(o));
    var b', tags', offs' := p + tail, tags + [t], offs + [o];
    forall k | 0 <= k < n - 1 ensures SectionAt(b', h, tags', offs', k) {
      EarlierSectionsKept(b, h, tags, offs, t, o, tail, k);
    }
    NewSection(p, gap, hdr, t.payload, o, o + 12);
    assert SectionAt(p + tail, h, tags + [t], offs + [o], n);
  }

  // The header fields after data_len more bytes were added to the last section.
  function Grown(h: Heading, only: bool, len: nat): Heading {
    if only then h.(length := h.length + len) else h
  }

  function GrownTags(tags: seq<Tag>, d: seq<byte>): (r: seq<Tag>)
    requires |tags| > 0
    ensures |r| == |tags|
  {
    var n := |tags| - 1;
    tags[n := tags[n].(payload := tags[n].payload + d)]
  }

  lemma SameLow(a: nat, n: nat, d: nat)
    requires a % 0x1_0000 == n < 0x1_0000
    ensures (a + d) % 256 == (n + d) % 256 && (a + d) / 256 % 256 == (n + d) / 256 % 256
  {
    var q := a / 0x1_0000;
    assert a + d == 256 * (256 * q) + (n + d);
    assert (a + d) / 256 == 256 * q + (n + d) / 256;
  }

  lemma Le16Add(a: nat, d: nat, n: nat)
    requires n == FromLe16(Le16(a))
    ensures Le16(n + d) == Le16(a + d)
  {
    ByteDigits(a);
    SameLow(a, n, d);
  }

  function LengthOf(h: Heading, tags: seq<Tag>, k: nat): nat
    requires k < |tags|
  {
    if k == 0 then h.length else 12 + |tags[k].payload|
  }

  lemma GrowHeader(h: Heading, tags: seq<Tag>, d: seq<byte>, n: nat, at: nat)
    requires 0 < |tags| == n + 1 && |tags[n].name| == 4 && at == HeaderLen(n == 0) - 8
    ensures var s := Header(h, tags, n, 0);
      && Get16(s, at) == FromLe16(Le16(LengthOf(h, tags, n)))
      && Splice(s, at, Le16(LengthOf(h, tags, n) + |d|)) == Header(Grown(h, n == 0, |d|), GrownTags(tags, d), n, 0)
  {}

  lemma ShapedGrow(tags: seq<Tag>, offs: seq<nat>, d: seq<byte>)
    requires Shaped(tags, offs)
    ensures Shaped(GrownTags(tags, d), offs)
  {
    forall k | 0 <= k < |tags| - 1 ensures Abuts(GrownTags(tags, d), offs, k) {
      assert Abuts(tags, offs, k);
    }
  }

  // The length field of the last section, as it stands and as it must become.
  lemma LastLength(b: seq<byte>, h: Heading, tags: seq<Tag>, offs: seq<nat>, d: seq<byte>, at: nat)
    requires Chain(b, h, tags, offs) && at == LengthPos(offs)
    ensures at + 2 <= |b|
    ensures Le16(Get16(b, at) + |d|) == Le16(LengthOf(h, tags, |tags| - 1) + |d|)
  {
    var n := |tags| - 1;
    assert SectionAt(b, h, tags, offs, n);
    var s, x := Header(h, tags, n, 0), HeaderLen(n == 0) - 8;
    GrowHeader(h, tags, d, n, x);
    assert s[x] == b[offs[n]..Data(offs, n)][x] == b[at];
    assert s[x + 1] == b[offs[n]..Data(offs, n)][x + 1] == b[at + 1];
    Le16Add(LengthOf(h, tags, n), |d|, Get16(b, at));
  }

  lemma LastSectionGrown(b: seq<byte>, h: Heading, tags: seq<Tag>, offs: seq<nat>, d: seq<byte>, at: nat, v: seq<byte>)
    requires Chain(b, h, tags, offs) && Shaped(GrownTags(tags, d), offs) && at == LengthPos(offs) && at + 2 <= |b|
    requires v == Le16(LengthOf(h, tags, |tags| - 1) + |d|)
    ensures SectionAt(Splice(b, at, v) + d, Grown(h, |tags| == 1, |d|), GrownTags(tags, d), offs, |tags| - 1)
  {
    var n := |tags| - 1;
    assert SectionAt(b, h, tags, offs, n);
    var body, p := Data(offs, n), Splice(b, at, v);
    GrowHeader(h, tags, d, n, HeaderLen(n == 0) - 8);
    SpliceInside(b, at, v, offs[n], body);
    assert (p + d)[offs[n]..body] == p[offs[n]..body];
    SpliceApart(b, at, v, body, |b|);
    assert (p + d)[body..] == p[body..] + d;
  }

  lemma EarlierSectionsUngrown(b: seq<byte>, h: Heading, tags: seq<Tag>, offs: seq<nat>, d: seq<byte>,
                               at: nat, v: seq<byte>, k: nat)
    requires Chain(b, h, tags, offs) && Shaped(GrownTags(tags, d), offs) && at == LengthPos(offs) && at + 2 <= |b|
    requires |v| == 2 && k < |tags| - 1
    ensures SectionAt(Splice(b, at, v) + d, Grown(h, |tags| == 1, |d|), GrownTags(tags, d), offs, k)
  {
    var p, e := Splice(b, at, v), End(tags, offs, k);
    assert SectionAt(b, h, tags, offs, k);
    Before(tags, offs, k, |tags| - 1);
    SpliceApart(b, at, v, offs[k], e);
    assert (p + d)[offs[k]..e] == p[offs[k]..e];
    SectionKept(b, h, tags, offs, p + d, Grown(h, |tags| == 1, |d|), GrownTags(tags, d), offs, k);
  }

  /** Appending data to the last section, whose length field is bumped in place. */
  lemma ChainGrow(b: seq<byte>, h: Heading, tags: seq<Tag>, offs: seq<nat>, d: seq<byte>, at: nat)
    requires Chain(b, h, tags, offs) && at == LengthPos(offs)
    ensures at + 2 <= |b|
    ensures Chain(Splice(b, at, Le16(Get16(b, at) + |d|)) + d, Grown(h, |tags| == 1, |d|), GrownTags(tags, d), offs)
  {
    ShapedGrow(tags, offs, d);
    LastLength(b, h, tags, offs, d, at);
    var v := Le16(LengthOf(h, tags, |tags| - 1) + |d|);
    LastSectionGrown(b, h, tags, offs, d, at, v);
    var b', h', tags' := Splice(b, at, v) + d, Grown(h, |tags| == 1, |d|), GrownTags(tags, d);
    forall k | 0 <= k < |tags| - 1 ensures SectionAt(b', h', tags', offs, k) {
      EarlierSectionsUngrown(b, h, tags, offs, d, at, v, k);
    }
  }

  /** Writing the final length into the first header, over its length and possibly its extra field. */
  lemma ChainSetTotal(b: seq<byte>, h: Heading, tags: seq<Tag>, offs: seq<nat>, v: seq<byte>, h': Heading)
    requires Chain(b, h, tags, offs)
    requires h'.seqno == h.seqno
    requires (v == Le16(h'.length) && Le16(h'.extra) == Le16(h.extra)) || v == Le16(h'.length) + Le16(h'.extra)
    ensures |b| >= 16 && Chain(Splice(b, 8, v), h', tags, offs)
  {
    assert SectionAt(b, h, tags, offs, 0);
    var b' := Splice(b, 8, v);
    SpliceInside(b, 8, v, 0, 16);
    assert Splice(Header(h, tags, 0, NextOf(offs, 0)), 8, v) == Header(h', tags, 0, NextOf(offs, 0));
    SpliceApart(b, 8, v, 16, End(tags, offs, 0));
    assert SectionAt(b', h', tags, offs, 0);
    forall k | 0 < k < |tags| ensures SectionAt(b', h', tags, offs, k) {
      assert SectionAt(b, h, tags, offs, k);
      Before(tags, offs, 0, k);
      SpliceApart(b, 8, v, offs[k], End(tags, offs, k));
      SectionKept(b, h, tags, offs, b', h', tags, offs, k);
    }
  }

  /** A reader that knows only the format: the offsets met by following the next fields, which must increase. */
  function Follow(b: seq<byte>, off: nat, first: bool): Option<seq<nat>>
    decreases |b| - off
  {
    var body := off + HeaderLen(first);
    if body > |b| then None
    else
      var next := FromLe32(b[body - 4..body]);
      if next == 0 then Some([off])
      else if next <= off then None
      else
        match Follow(b, next, false)
        case None => None
        case Some(rest) => Some([off] + rest)
  }

  lemma NextField(b: seq<byte>, h: Heading, tags: seq<Tag>, offs: seq<nat>, k: nat)
    requires Chain(b, h, tags, offs) && k < |tags| && |b| < 0x1_0000_0000
    ensures Data(offs, k) <= |b|
    ensures FromLe32(b[Data(offs, k) - 4..Data(offs, k)]) == NextOf(offs, k)
  {
    assert SectionAt(b, h, tags, offs, k);
    var n := NextOf(offs, k);
    if k + 1 < |offs| {
      assert SectionAt(b, h, tags, offs, k + 1);
    }
    var s := Header(h, tags, k, n);
    assert s[|s| - 4..] == Le32(n);
    assert b[offs[k]..Data(offs, k)][|s| - 4..] == b[Data(offs, k) - 4..Data(offs, k)];
    Le32RoundTrip(n);
  }

  lemma {:induction false} ChainFollowed(b: seq<byte>, h: Heading, tags: seq<Tag>, offs: seq<nat>, k: nat)
    requires Chain(b, h, tags, offs) && k < |tags| && |b| < 0x1_0000_0000
    ensures Follow(b, offs[k], k == 0) == Some(offs[k..])
    decreases |tags| - k
  {
    NextField(b, h, tags, offs, k);
    if k + 1 < |tags| {
      Before(tags, offs, k, k + 1);
      ChainFollowed(b, h, tags, offs, k + 1);
      assert offs[k..] == [offs[k]] + offs[k + 1..];
    } else {
      assert offs[k..] == [offs[k]];
    }
  }
}
