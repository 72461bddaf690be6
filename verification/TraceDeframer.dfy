/** The trace reader: packets between flag bytes, out of a stream that arrives in arbitrary pieces. */
module TraceDeframer {
  import opened Bytes

  const FLAG: byte := 0x7e
  const ESCAPE: byte := 0x7d

  // The first flag at or behind from, or the length.
  function Find(s: seq<byte>, from: nat): (k: nat)
    requires from <= |s|
    ensures from <= k <= |s|
    ensures forall i :: from <= i < k ==> s[i] != FLAG
    ensures k < |s| ==> s[k] == FLAG
    decreases |s| - from
  {
    if from < |s| && s[from] != FLAG then Find(s, from + 1) else from
  }

  // The whole stream at once: what lies before the first flag and behind the last is no packet.
  function Packets(stream: seq<byte>): seq<seq<byte>> {
    var start := Find(stream, 0);
    if start == |stream| then [] else Segments(stream[start..])
  }

  // The non-empty segments between flags, of a stream that starts with one.
  function Segments(s: seq<byte>): seq<seq<byte>>
    requires s != [] && s[0] == FLAG
    decreases |s|
  {
    var end := Find(s, 1);
    if end == |s| then []
    else Lone(s[1..end]) + Segments(s[end..])
  }

  // What is left of it: the last flag and everything behind.
  function Rest(s: seq<byte>): (r: seq<byte>)
    requires s != [] && s[0] == FLAG
    ensures Settled(r) && r != []
    decreases |s|
  {
    var end := Find(s, 1);
    if end == |s| then s else Rest(s[end..])
  }

  // The invariant of the reader's buffer.
  ghost predicate Settled(buf: seq<byte>) {
    buf == [] || (buf[0] == FLAG && forall i :: 1 <= i < |buf| ==> buf[i] != FLAG)
  }

  function Unread(stream: seq<byte>): (r: seq<byte>)
    ensures Settled(r)
  {
    var start := Find(stream, 0);
    if start == |stream| then [] else Rest(stream[start..])
  }

  lemma FindIs(s: seq<byte>, from: nat, k: nat)
    requires from <= k <= |s| && (forall i :: from <= i < k ==> s[i] != FLAG) && (k < |s| ==> s[k] == FLAG)
    ensures Find(s, from) == k
  {
    var f := Find(s, from);
  }

  // Appending behind a flag that was found leaves it where it was.
  lemma FindInPrefix(s: seq<byte>, t: seq<byte>, from: nat)
    requires from <= |s| && Find(s, from) < |s|
    ensures var k := Find(s, from);
      Find(s + t, from) == k && (s + t)[from..k] == s[from..k] && (s + t)[k..] == s[k..] + t
  {
    FindIs(s + t, from, Find(s, from));
  }

  function Lone(p: seq<byte>): seq<seq<byte>> {
    if p == [] then [] else [p]
  }

  lemma DropInto(s: seq<byte>, t: seq<byte>, k: nat)
    requires k <= |t|
    ensures t[k..] == (s + t)[|s| + k..]
  {}

  lemma SegmentsStep(s: seq<byte>, end: nat)
    requires s != [] && s[0] == FLAG && 1 <= end < |s| && Find(s, 1) == end
    ensures Segments(s) == Lone(s[1..end]) + Segments(s[end..]) && Rest(s) == Rest(s[end..])
  {}

  lemma FoundSegment(s: seq<byte>, end: nat, packet: seq<byte>, rest: seq<byte>)
    requires s != [] && s[0] == FLAG && 1 <= end < |s| && Find(s, 1) == end
    requires packet == s[1..end] && rest == s[end..]
    ensures rest != [] && rest[0] == FLAG && |rest| < |s|
    ensures Segments(s) == Lone(packet) + Segments(rest) && Rest(s) == Rest(rest)
  {
    SegmentsStep(s, end);
  }

  lemma {:induction false} SegmentsConcat(s: seq<byte>, t: seq<byte>)
    requires s != [] && s[0] == FLAG
    ensures Segments(s + t) == Segments(s) + Segments(Rest(s) + t)
    ensures Rest(s + t) == Rest(Rest(s) + t)
    decreases |s|
  {
    var end := Find(s, 1);
    if end < |s| {
      FindInPrefix(s, t, 1);
      SegmentsStep(s, end);
      SegmentsStep(s + t, end);
      SegmentsConcat(s[end..], t);
      ConcatAssociates(Lone(s[1..end]), Segments(s[end..]), Segments(Rest(s) + t));
    } else {
      assert Segments(s) == [] && Rest(s) == s;
    }
  }

  lemma StartsAt(s: seq<byte>, start: nat, r: seq<byte>)
    requires start < |s| && Find(s, 0) == start && r == s[start..]
    ensures r != [] && r[0] == FLAG && Packets(s) == Segments(r) && Unread(s) == Rest(r)
  {}

  /** A further piece of the stream only needs the buffer, never the whole past. */
  lemma PacketsConcat(s: seq<byte>, t: seq<byte>)
    ensures Packets(s + t) == Packets(s) + Packets(Unread(s) + t)
    ensures Unread(s + t) == Unread(Unread(s) + t)
  {
    var start := Find(s, 0);
    if start < |s| {
      FindInPrefix(s, t, 0);
      StartsAt(s, start, s[start..]);
      StartsAt(s + t, start, s[start..] + t);
      SegmentsConcat(s[start..], t);
      var u := Rest(s[start..]) + t;
      assert u[0] == FLAG;
      FindIs(u, 0, 0);
      assert u[0..] == u;
    } else {
      FlaglessPrefix(s, t);
      StartsNowhere(s);
      assert Unread(s) + t == t;
    }
  }

  lemma FindBehind(s: seq<byte>, t: seq<byte>)
    requires Find(s, 0) == |s|
    ensures Find(s + t, 0) == |s| + Find(t, 0)
  {
    FindIs(s + t, 0, |s| + Find(t, 0));
  }

  lemma StartsNowhere(s: seq<byte>)
    requires Find(s, 0) == |s|
    ensures Packets(s) == [] && Unread(s) == []
  {}

  lemma FoundBehind(s: seq<byte>, t: seq<byte>, k: nat)
    requires k < |t| && Find(t, 0) == k && Find(s + t, 0) == |s| + k
    ensures Packets(s + t) == Packets(t) && Unread(s + t) == Unread(t)
  {
    DropInto(s, t, k);
    StartsAt(t, k, t[k..]);
    StartsAt(s + t, |s| + k, t[k..]);
  }

  lemma FlaglessPrefix(s: seq<byte>, t: seq<byte>)
    requires Find(s, 0) == |s|
    ensures Packets(s + t) == Packets(t) && Unread(s + t) == Unread(t)
  {
    FindBehind(s, t);
    if Find(t, 0) < |t| {
      FoundBehind(s, t, Find(t, 0));
    } else {
      StartsNowhere(t);
      StartsNowhere(s + t);
    }
  }

  function Concat(chunks: seq<seq<byte>>): seq<byte> {
    if chunks == [] then [] else Concat(chunks[..|chunks| - 1]) + chunks[|chunks| - 1]
  }

  // ----- byte stuffing

  predicate Bit5(b: byte) {
    b as int / 32 % 2 == 1
  }

  // b | 0x20 and b ^ 0x20.
  function SetBit5(b: byte): byte {
    if Bit5(b) then b else b + 32
  }

  function FlipBit5(b: byte): byte {
    if Bit5(b) then b - 32 else b + 32
  }

  // unescape; None is the StopIteration of an escape at the end.
  function Unescaped(p: seq<byte>): Option<seq<byte>> {
    if p == [] then Some([])
    else if p[0] != ESCAPE then After([p[0]], Unescaped(p[1..]))
    else if |p| == 1 then None
    else After([SetBit5(p[1])], Unescaped(p[2..]))
  }

  function After(done: seq<byte>, r: Option<seq<byte>>): Option<seq<byte>> {
    match r case Some(rest) => Some(done + rest) case None => None
  }

  lemma AfterNothing(r: Option<seq<byte>>)
    ensures After([], r) == r
  {
    if r.Some? {
      assert [] + r.value == r.value;
    }
  }

  lemma AfterAfter(a: seq<byte>, b: seq<byte>, r: Option<seq<byte>>)
    ensures After(a, After(b, r)) == After(a + b, r)
  {
    if r.Some? {
      assert a + (b + r.value) == a + b + r.value;
    }
  }

  method Unescape(p: seq<byte>) returns (r: Option<seq<byte>>)
    ensures r == Unescaped(p)
  {
    var out: seq<byte> := [];
    var i := 0;
    assert p[0..] == p;
    AfterNothing(Unescaped(p));
    while i < |p|
      invariant 0 <= i <= |p|
      invariant Unescaped(p) == After(out, Unescaped(p[i..]))
    {
      assert p[i..][1..] == p[i + 1..];
      if p[i] == ESCAPE {
        if i + 1 == |p| {
          return None;
        }
        assert p[i..][2..] == p[i + 2..];
        AfterAfter(out, [SetBit5(p[i + 1])], Unescaped(p[i + 2..]));
        out := out + [SetBit5(p[i + 1])];
        i := i + 2;
      } else {
        AfterAfter(out, [p[i]], Unescaped(p[i + 1..]));
        out := out + [p[i]];
        i := i + 1;
      }
    }
    assert out + [] == out;
    r := Some(out);
  }

  // A sender's stuffing, escaping at least flag and escape (section 4.2 of RFC 1662).
  ghost function Stuffed(p: seq<byte>, escaped: set<byte>): seq<byte> {
    if p == [] then []
    else (if p[0] in escaped then [0x7d, FlipBit5(p[0])] else [p[0]]) + Stuffed(p[1..], escaped)
  }

  /** The OR undoes the sender's XOR exactly on bytes that had bit 5 set, which flag and escape do. */
  lemma OrUndoesXor(b: byte)
    ensures SetBit5(FlipBit5(b)) == b <==> Bit5(b)
    ensures Bit5(FLAG) && Bit5(ESCAPE)
  {}

  /** Unescaping inverts the stuffing of exactly those packets whose escaped bytes all have bit 5 set. */
  lemma {:induction false} UnescapeStuffed(p: seq<byte>, escaped: set<byte>)
    requires FLAG in escaped && ESCAPE in escaped
    ensures Unescaped(Stuffed(p, escaped)).Some? && |Unescaped(Stuffed(p, escaped)).value| == |p|
    ensures Unescaped(Stuffed(p, escaped)) == Some(p) <==> forall b :: b in p && b in escaped ==> Bit5(b)
  {
    if p != [] {
      var s, rest := Stuffed(p, escaped), Stuffed(p[1..], escaped);
      UnescapeStuffed(p[1..], escaped);
      var r := Unescaped(rest).value;
      assert p == [p[0]] + p[1..];
      assert forall b :: b in p <==> b == p[0] || b in p[1..];
      if p[0] in escaped {
        assert s[2..] == rest;
        OrUndoesXor(p[0]);
        assert Unescaped(s) == Some([SetBit5(FlipBit5(p[0]))] + r);
      } else {
        assert s[1..] == rest;
        assert Unescaped(s) == Some([p[0]] + r);
      }
      var got := Unescaped(s).value;
      assert got[1..] == r;
      assert got == p <==> got[0] == p[0] && got[1..] == p[1..];
    }
  }

  // A packet the stuffing can carry.
  ghost predicate Sendable(p: seq<byte>, escaped: set<byte>) {
    p != [] && forall b :: b in p && b in escaped ==> Bit5(b)
  }

  // The byte whose escape looks like a flag.
  const FAKE_FLAG: byte := 0x5e

  // A packet whose stuffing breaks apart on the line.
  ghost predicate Broken(p: seq<byte>, escaped: set<byte>) {
    FAKE_FLAG in p && FAKE_FLAG in escaped
  }

  lemma {:induction false} StuffedHasNoFlag(p: seq<byte>, escaped: set<byte>)
    requires FLAG in escaped && !Broken(p, escaped)
    ensures forall b :: b in Stuffed(p, escaped) ==> b != FLAG
    ensures p != [] ==> Stuffed(p, escaped) != []
  {
    if p != [] {
      StuffedHasNoFlag(p[1..], escaped);
    }
  }

  lemma UnescapeHead(head: seq<byte>, rest: seq<byte>)
    requires (|head| == 1 && head[0] != ESCAPE) || (|head| == 2 && head[0] == ESCAPE)
    requires Unescaped(rest).None?
    ensures Unescaped(head + rest).None?
  {
    assert (head + rest)[|head|..] == rest;
  }

  // The flag that breaks a packet stands behind an escape.
  lemma {:induction false} StuffedBreaks(p: seq<byte>, escaped: set<byte>) returns (k: nat)
    requires FLAG in escaped && ESCAPE in escaped && Broken(p, escaped)
    ensures 0 < k < |Stuffed(p, escaped)| && Stuffed(p, escaped)[k] == FLAG
    ensures forall i :: 0 <= i < k ==> Stuffed(p, escaped)[i] != FLAG
    ensures Unescaped(Stuffed(p, escaped)[..k]).None?
  {
    var s, rest := Stuffed(p, escaped), Stuffed(p[1..], escaped);
    if p[0] == FAKE_FLAG {
      k := 1;
      assert s == [ESCAPE, FLAG] + rest;
      assert s[..1] == [ESCAPE];
    } else {
      var head := if p[0] in escaped then [ESCAPE, FlipBit5(p[0])] else [p[0]];
      var later := StuffedBreaks(p[1..], escaped);
      k := |head| + later;
      assert s == head + rest && s[..k] == head + rest[..later];
      UnescapeHead(head, rest[..later]);
    }
  }

  // Packets on the line: a flag before each, and one more at the end.
  ghost function OnLine(ps: seq<seq<byte>>, escaped: set<byte>): seq<byte> {
    if ps == [] then [0x7e] else [0x7e] + Stuffed(ps[0], escaped) + OnLine(ps[1..], escaped)
  }

  // What reaches handle_packet: the unescaped packets, up to the first whose trailing escape ends the program.
  function Handed(ps: seq<seq<byte>>): seq<seq<byte>> {
    if ps == [] then []
    else
      match Unescaped(ps[0])
      case None => []
      case Some(p) => [p] + Handed(ps[1..])
  }

  predicate Survives(ps: seq<seq<byte>>) {
    forall p :: p in ps ==> Unescaped(p).Some?
  }

  /** A piece of the stream that ends the program hides everything behind it. */
  lemma {:induction false} HandedConcat(a: seq<seq<byte>>, b: seq<seq<byte>>)
    ensures Handed(a + b) == if Survives(a) then Handed(a) + Handed(b) else Handed(a)
    ensures Survives(a + b) <==> Survives(a) && Survives(b)
  {
    if a == [] {
      assert a + b == b;
    } else {
      assert (a + b)[1..] == a[1..] + b;
      assert forall p :: p in a <==> p == a[0] || p in a[1..];
      HandedConcat(a[1..], b);
      if Unescaped(a[0]).Some? && Survives(a[1..]) {
        ConcatAssociates([Unescaped(a[0]).value], Handed(a[1..]), Handed(b));
      }
    }
  }

  // The stream from a packet's flag up to the next flag.
  lemma NextSegment(s: seq<byte>, p: seq<byte>, rest: seq<byte>)
    requires s == [FLAG] + p + rest && rest != [] && rest[0] == FLAG && FLAG !in p
    ensures Segments(s) == Lone(p) + Segments(rest) && Rest(s) == Rest(rest)
  {
    forall i | 1 <= i < 1 + |p| ensures s[i] != FLAG {
      assert s[i] == p[i - 1] && p[i - 1] in p;
    }
    FindIs(s, 1, 1 + |p|);
    assert s[1..1 + |p|] == p && s[1 + |p|..] == rest;
    SegmentsStep(s, 1 + |p|);
  }

  // Any segments, a flag before each, and one more.
  function Joined(segments: seq<seq<byte>>, rest: seq<byte>): seq<byte> {
    if segments == [] then [0x7e] + rest else [0x7e] + segments[0] + Joined(segments[1..], rest)
  }

  /** Whatever stands between flags is a packet, unless it is empty; what stands before the first flag is not, and what
      stands behind the last is kept for later. */
  lemma {:induction false} SegmentsJoined(noise: seq<byte>, segments: seq<seq<byte>>, rest: seq<byte>)
    requires 0x7e !in noise && 0x7e !in rest && forall p :: p in segments ==> FLAG !in p
    ensures Joined(segments, rest) != [] && Joined(segments, rest)[0] == FLAG
    ensures Segments(Joined(segments, rest)) == NonEmpty(segments) && Rest(Joined(segments, rest)) == [0x7e] + rest
    ensures Packets(noise + Joined(segments, rest)) == NonEmpty(segments)
    ensures Unread(noise + Joined(segments, rest)) == [0x7e] + rest
    decreases |segments|
  {
    var s := Joined(segments, rest);
    if segments == [] {
      forall i | 1 <= i < |s| ensures s[i] != FLAG {
        assert s[i] == rest[i - 1] && rest[i - 1] in rest;
      }
      FindIs(s, 1, |s|);
    } else {
      assert segments[0] in segments;
      SegmentsJoined([], segments[1..], rest);
      NextSegment(s, segments[0], Joined(segments[1..], rest));
    }
    FindIs(noise + s, 0, |noise|);
    assert (noise + s)[|noise|..] == s;
    StartsAt(noise + s, |noise|, s);
  }

  lemma OnLineStarts(ps: seq<seq<byte>>, escaped: set<byte>)
    ensures OnLine(ps, escaped) != [] && OnLine(ps, escaped)[0] == FLAG
  {}

  // Nothing is handed on from a broken packet on.
  lemma BrokenEnds(ps: seq<seq<byte>>, escaped: set<byte>)
    requires FLAG in escaped && ESCAPE in escaped && ps != [] && Broken(ps[0], escaped)
    ensures OnLine(ps, escaped)[0] == FLAG && Handed(Segments(OnLine(ps, escaped))) == []
  {
    var s, p := OnLine(ps, escaped), Stuffed(ps[0], escaped);
    var k := StuffedBreaks(ps[0], escaped);
    assert s == [FLAG] + p[..k] + (p[k..] + OnLine(ps[1..], escaped));
    NextSegment(s, p[..k], p[k..] + OnLine(ps[1..], escaped));
  }

  lemma HandedFirst(p: seq<byte>, r: seq<byte>, rest: seq<seq<byte>>)
    requires Unescaped(p) == Some(r)
    ensures Handed([p] + rest) == [r] + Handed(rest) && (Survives([p] + rest) <==> Survives(rest))
  {
    assert ([p] + rest)[1..] == rest;
    assert forall q :: q in [p] + rest <==> q == p || q in rest;
  }

  lemma SameCons(a: seq<byte>, s: seq<seq<byte>>, ps: seq<seq<byte>>)
    requires ps != []
    ensures [a] + s == ps <==> a == ps[0] && s == ps[1..]
  {
    assert ps == [ps[0]] + ps[1..];
    if [a] + s == ps {
      assert s == ([a] + s)[1..];
    }
  }

  ghost predicate AllSendable(ps: seq<seq<byte>>, escaped: set<byte>) {
    forall p :: p in ps ==> Sendable(p, escaped)
  }

  lemma SendableFirst(ps: seq<seq<byte>>, escaped: set<byte>)
    requires ps != []
    ensures AllSendable(ps, escaped) <==> Sendable(ps[0], escaped) && AllSendable(ps[1..], escaped)
    ensures Broken(ps[0], escaped) || ps[0] == [] ==> !Sendable(ps[0], escaped)
  {
    assert forall q :: q in ps <==> q == ps[0] || q in ps[1..];
  }

  // A packet that stays in one piece adds what unescaping makes of it, unless it is empty.
  lemma WholeFirst(ps: seq<seq<byte>>, escaped: set<byte>)
    requires FLAG in escaped && ESCAPE in escaped && ps != [] && !Broken(ps[0], escaped)
    ensures OnLine(ps, escaped)[0] == OnLine(ps[1..], escaped)[0] == FLAG
    ensures var got, rest := Segments(OnLine(ps, escaped)), Segments(OnLine(ps[1..], escaped));
      if ps[0] == [] then got == rest
      else var r := Unescaped(Stuffed(ps[0], escaped));
        r.Some? && Handed(got) == [r.value] + Handed(rest) && (Survives(got) <==> Survives(rest))
  {
    var p, rest := Stuffed(ps[0], escaped), OnLine(ps[1..], escaped);
    StuffedHasNoFlag(ps[0], escaped);
    NextSegment(OnLine(ps, escaped), p, rest);
    if ps[0] == [] {
      assert [] + Segments(rest) == Segments(rest);
    } else {
      UnescapeStuffed(ps[0], escaped);
      HandedFirst(p, Unescaped(p).value, Segments(rest));
    }
  }

  lemma {:induction false} OnLineHanded(ps: seq<seq<byte>>, escaped: set<byte>)
    requires FLAG in escaped && ESCAPE in escaped
    ensures OnLine(ps, escaped) != [] && OnLine(ps, escaped)[0] == FLAG
    ensures var got := Segments(OnLine(ps, escaped));
      && |Handed(got)| <= |ps| && (Handed(got) == ps <==> AllSendable(ps, escaped))
      && (AllSendable(ps, escaped) ==> Survives(got))
  {
    OnLineStarts(ps, escaped);
    if ps != [] {
      SendableFirst(ps, escaped);
      if Broken(ps[0], escaped) {
        BrokenEnds(ps, escaped);
      } else {
        OnLineHanded(ps[1..], escaped);
        WholeFirst(ps, escaped);
        if ps[0] != [] {
          UnescapeStuffed(ps[0], escaped);
          SameCons(Unescaped(Stuffed(ps[0], escaped)).value, Handed(Segments(OnLine(ps[1..], escaped))), ps);
        }
      }
    }
  }

  /** End to end: stuffed, joined by flags, preceded by noise and cut into any chunks, exactly the lists of non-empty
      packets whose escaped bytes all have bit 5 set come back, and then nothing ends the reader. */
  lemma LineRoundTrip(noise: seq<byte>, ps: seq<seq<byte>>, escaped: set<byte>, chunks: seq<seq<byte>>)
    requires 0x7e in escaped && 0x7d in escaped && 0x7e !in noise
    requires Concat(chunks) == noise + OnLine(ps, escaped)
    ensures var packets := Packets(Concat(chunks));
      && (Handed(packets) == ps <==> AllSendable(ps, escaped))
      && (AllSendable(ps, escaped) ==> Survives(packets))
  {
    var s := OnLine(ps, escaped);
    OnLineHanded(ps, escaped);
    FindIs(noise + s, 0, |noise|);
    assert (noise + s)[|noise|..] == s;
  }

  /** The reading loop at module level. */
  class Reader {
    var buf: seq<byte>

    constructor ()
      ensures buf == []
    {
      buf := [];
    }

    // One finished packet: empty ones are skipped, the others unescaped and handed on.
    method Hand(packet: seq<byte>) returns (ok: bool, handed: seq<seq<byte>>)
      ensures ok == Survives(Lone(packet)) && handed == Handed(Lone(packet))
    {
      ok, handed := true, [];
      if packet != [] {
        assert packet in [packet] && [packet][1..] == [];
        var r := Unescape(packet);
        ok := r.Some?;
        if ok {
          handed := [r.value];
        }
      }
    }

    // The inner loop: hand on the finished packets, keep the rest. When a packet ends the program, nothing is read
    // again.
    method Drain() returns (ok: bool, handed: seq<seq<byte>>)
      requires buf != [] && buf[0] == FLAG
      modifies this
      ensures ok == Survives(Segments(old(buf))) && handed == Handed(Segments(old(buf)))
      ensures ok ==> buf == Rest(old(buf))
    {
      ok, handed := true, [];
      ghost var done: seq<seq<byte>> := [];
      while true
        invariant buf != [] && buf[0] == FLAG
        invariant Segments(old(buf)) == done + Segments(buf) && Rest(old(buf)) == Rest(buf)
        invariant ok && Survives(done) && handed == Handed(done)
        decreases |buf|
      {
        var end := Find(buf, 1);
        if end == |buf| {
          assert done + [] == done;
          return;
        }
        var packet, rest := buf[1..end], buf[end..];
        FoundSegment(buf, end, packet, rest);
        buf := rest;
        ConcatAssociates(done, Lone(packet), Segments(rest));
        HandedConcat(done, Lone(packet));
        HandedConcat(done + Lone(packet), Segments(rest));
        var more;
        ok, more := Hand(packet);
        handed, done := handed + more, done + Lone(packet);
        if !ok {
          return;
        }
      }
    }

    // One read of the outer loop.
    method Feed(chunk: seq<byte>) returns (ok: bool, handed: seq<seq<byte>>)
      requires Settled(buf)
      modifies this
      ensures var packets := Packets(old(buf) + chunk); ok == Survives(packets) && handed == Handed(packets)
      ensures ok ==> Settled(buf) && buf == Unread(old(buf) + chunk)
    {
      ok, handed := true, [];
      buf := buf + chunk;
      var start := Find(buf, 0);
      if start == |buf| {
        StartsNowhere(buf);
        buf := [];
      } else {
        StartsAt(buf, start, buf[start..]);
        buf := buf[start..];
        ok, handed := Drain();
      }
    }

    /** However the stream is cut into reads, what is handed on is what the stream taken whole gives, up to the first
        packet with a trailing escape; ok says that there was none. */
    method ReadAll(chunks: seq<seq<byte>>) returns (ok: bool, handed: seq<seq<byte>>)
      requires buf == []
      modifies this
      ensures var packets := Packets(Concat(chunks)); ok == Survives(packets) && handed == Handed(packets)
      ensures ok ==> buf == Unread(Concat(chunks))
    {
      ok, handed := true, [];
      for i := 0 to |chunks|
        invariant ok && Survives(Packets(Concat(chunks[..i]))) && handed == Handed(Packets(Concat(chunks[..i])))
        invariant buf == Unread(Concat(chunks[..i]))
      {
        var more;
        OneMore(chunks, i, buf);
        HandedConcat(Packets(Concat(chunks[..i])), Packets(buf + chunks[i]));
        ok, more := Feed(chunks[i]);
        handed := handed + more;
        if !ok {
          EndedEarly(chunks, i + 1);
          return;
        }
      }
      assert chunks[..|chunks|] == chunks;
    }
  }

  lemma OneMore(chunks: seq<seq<byte>>, i: nat, buf: seq<byte>)
    requires i < |chunks| && buf == Unread(Concat(chunks[..i]))
    ensures Packets(Concat(chunks[..i + 1])) == Packets(Concat(chunks[..i])) + Packets(buf + chunks[i])
    ensures Unread(Concat(chunks[..i + 1])) == Unread(buf + chunks[i])
  {
    assert chunks[..i + 1][..i] == chunks[..i];
    PacketsConcat(Concat(chunks[..i]), chunks[i]);
  }

  // What comes behind the packet that ended the program plays no part.
  lemma {:induction false} EndedEarly(chunks: seq<seq<byte>>, i: nat)
    requires i <= |chunks| && !Survives(Packets(Concat(chunks[..i])))
    ensures !Survives(Packets(Concat(chunks)))
    ensures Handed(Packets(Concat(chunks))) == Handed(Packets(Concat(chunks[..i])))
    decreases |chunks| - i
  {
    if i < |chunks| {
      var buf := Unread(Concat(chunks[..i]));
      OneMore(chunks, i, buf);
      HandedConcat(Packets(Concat(chunks[..i])), Packets(buf + chunks[i]));
      EndedEarly(chunks, i + 1);
    } else {
      assert chunks[..i] == chunks;
    }
  }
}
