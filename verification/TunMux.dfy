/** The userspace coalescer: packets from the tun device go into the current frame, or force it out. */
module TunMux {
  import opened Bytes
  import opened MuxChain
  import opened MuxFrame
  import opened MuxDecode

  type packet = seq<byte>

  // dead is the exit on a packet that fits no frame.
  datatype Coalescer = Coalescer(current: seq<packet>, emitted: seq<seq<packet>>, dead: bool)

  predicate Admits(current: seq<packet>, p: packet, maxFrame: nat) {
    && |current| < maxFrame / 1024
    && 16 + |Body(current)| + |p| + 16 + (12 + 4 + (|current| + 1) * 8) <= maxFrame
  }

  function Shipped(c: Coalescer): Coalescer {
    c.(current := [], emitted := c.emitted + [c.current])
  }

  // handle_tun_frame: a refused packet pushes the frame and is tried once more.
  function Handled(c: Coalescer, p: packet, maxFrame: nat): Coalescer {
    if c.dead then c
    else if Admits(c.current, p, maxFrame) then
      var c1 := c.(current := c.current + [p]);
      if |c1.current| >= maxFrame / 1024 then Shipped(c1) else c1
    else
      var c1 := Shipped(c);
      if Admits([], p, maxFrame) then c1.(current := [p]) else c1.(dead := true)
  }

  // The deadline, which only matters to a frame that holds something.
  function Expired(c: Coalescer): Coalescer {
    if c.dead || c.current == [] then c else Shipped(c)
  }

  datatype Act = Packet(p: packet) | Deadline

  function Next(c: Coalescer, a: Act, maxFrame: nat): Coalescer {
    match a
    case Packet(p) => Handled(c, p, maxFrame)
    case Deadline => Expired(c)
  }

  function Run(c: Coalescer, acts: seq<Act>, maxFrame: nat): Coalescer
    decreases |acts|
  {
    if acts == [] then c else Run(Next(c, acts[0], maxFrame), acts[1..], maxFrame)
  }

  predicate Configured(maxFrame: nat) {
    maxFrame % 4 == 0 && 1024 <= maxFrame < 0x1_0000
  }

  // The current frame can still take its trailer.
  predicate Roomy(current: seq<packet>, maxFrame: nat) {
    |current| <= maxFrame / 1024 && 16 + |Body(current)| + 16 + 8 * |current| <= maxFrame
  }

  function Packets(frames: seq<seq<packet>>): seq<packet> {
    if frames == [] then [] else Packets(frames[..|frames| - 1]) + frames[|frames| - 1]
  }

  // The packets of a run, in the order they were read.
  function Input(a: Act): seq<packet> {
    if a.Packet? then [a.p] else []
  }

  function Inputs(acts: seq<Act>): seq<packet>
    decreases |acts|
  {
    if acts == [] then [] else Input(acts[0]) + Inputs(acts[1..])
  }

  function Content(c: Coalescer): seq<packet> {
    Packets(c.emitted) + c.current
  }

  lemma ShippedContent(c: Coalescer)
    ensures Content(Shipped(c)) == Content(c)
  {
    assert (c.emitted + [c.current])[..|c.emitted|] == c.emitted;
  }

  lemma AdmittedRoomy(current: seq<packet>, p: packet, maxFrame: nat, next: seq<packet>)
    requires Admits(current, p, maxFrame) && next == current + [p]
    ensures Roomy(next, maxFrame)
  {
    BodySnoc(current, p);
  }

  lemma AdmittedFits(c: Coalescer, p: packet, maxFrame: nat, next: seq<packet>)
    requires Admits(c.current, p, maxFrame) && next == c.current + [p]
    ensures Roomy(next, maxFrame) && Content(c.(current := next)) == Content(c) + [p]
  {
    AdmittedRoomy(c.current, p, maxFrame, next);
  }

  lemma AdmitsFirst(p: packet, maxFrame: nat)
    requires Configured(maxFrame)
    ensures Admits([], p, maxFrame) <==> |p| + 56 <= maxFrame
  {}

  /** One packet: the retry fails, and the process exits, exactly if the packet is too long for an empty frame. */
  lemma HandledFits(c: Coalescer, p: packet, maxFrame: nat)
    requires Configured(maxFrame) && !c.dead && Roomy(c.current, maxFrame)
    ensures var t := Handled(c, p, maxFrame);
      && Roomy(t.current, maxFrame)
      && (t.dead <==> |p| + 56 > maxFrame) && (t.dead ==> t.current == [])
      && Content(t) == Content(c) + if t.dead then [] else [p]
  {
    AdmitsFirst(p, maxFrame);
    if Admits(c.current, p, maxFrame) {
      var next := c.current + [p];
      AdmittedFits(c, p, maxFrame, next);
      ShippedContent(c.(current := next));
    } else {
      ShippedContent(c);
      if Admits([], p, maxFrame) {
        AdmittedFits(Shipped(c), p, maxFrame, [p]);
      }
    }
  }

  lemma ExpiredFits(c: Coalescer, maxFrame: nat)
    requires Configured(maxFrame) && Roomy(c.current, maxFrame)
    ensures Roomy(Expired(c).current, maxFrame) && Content(Expired(c)) == Content(c)
  {
    ShippedContent(c);
  }

  predicate TooLong(a: Act, maxFrame: nat) {
    a.Packet? && |a.p| + 56 > maxFrame
  }

  // The event that ends the process, or the end of the run.
  function Fatal(acts: seq<Act>, maxFrame: nat): (k: nat)
    ensures k <= |acts| && forall i :: 0 <= i < k ==> !TooLong(acts[i], maxFrame)
    ensures k < |acts| ==> TooLong(acts[k], maxFrame)
    decreases |acts|
  {
    if acts == [] || TooLong(acts[0], maxFrame) then 0 else 1 + Fatal(acts[1..], maxFrame)
  }

  lemma NextFits(c: Coalescer, a: Act, maxFrame: nat)
    requires Configured(maxFrame) && !c.dead && Roomy(c.current, maxFrame)
    ensures var t := Next(c, a, maxFrame);
      && Roomy(t.current, maxFrame) && (t.dead <==> TooLong(a, maxFrame)) && (t.dead ==> t.current == [])
      && Content(t) == Content(c) + if t.dead then [] else Input(a)
  {
    match a
    case Packet(p) => HandledFits(c, p, maxFrame);
    case Deadline => ExpiredFits(c, maxFrame);
  }

  lemma {:induction false} DeadStays(c: Coalescer, acts: seq<Act>, maxFrame: nat)
    requires c.dead
    ensures Run(c, acts, maxFrame) == c
    decreases |acts|
  {
    if acts != [] {
      DeadStays(Next(c, acts[0], maxFrame), acts[1..], maxFrame);
    }
  }

  /** Over every run: the process exits exactly at the first packet too long for a frame of its own, the current frame
      always has room for its trailer, and every packet read before the exit lies in exactly one frame, in order; when
      the process exits these have all been written. */
  lemma {:induction false} EveryPacketOnce(c: Coalescer, acts: seq<Act>, maxFrame: nat)
    requires Configured(maxFrame) && !c.dead && Roomy(c.current, maxFrame)
    ensures var t, k := Run(c, acts, maxFrame), Fatal(acts, maxFrame);
      && Roomy(t.current, maxFrame) && (t.dead <==> k < |acts|) && (t.dead ==> t.current == [])
      && Content(t) == Content(c) + Inputs(acts[..k])
    decreases |acts|
  {
    if acts == [] {
      assert Content(c) + [] == Content(c);
    } else {
      var t, rest := Next(c, acts[0], maxFrame), acts[1..];
      NextFits(c, acts[0], maxFrame);
      if t.dead {
        DeadStays(t, rest, maxFrame);
      } else {
        var k := Fatal(rest, maxFrame);
        EveryPacketOnce(t, rest, maxFrame);
        assert acts[..1 + k][0] == acts[0] && acts[..1 + k][1..] == rest[..k];
        ConcatAssociates(Content(c), Input(acts[0]), Inputs(rest[..k]));
      }
    }
  }

  ghost predicate Wrote(bytes: seq<byte>, i: nat, ps: seq<packet>, maxFrame: nat) {
    |bytes| <= maxFrame && NetFrame(bytes, (i + 1) % 0x1_0000, 0, ps)
  }

  class Tun {
    const maxFrame: nat
    const frame: FrameBuilder
    var sequence: nat
    // The first message, and the frames after it.
    var control: seq<byte>
    var written: seq<seq<byte>>
    ghost var current: seq<packet>
    ghost var emitted: seq<seq<packet>>

    ghost function View(): Coalescer
      reads this
    {
      Coalescer(current, emitted, false)
    }

    // Frame i went out with sequence number i + 1, after the control frame's 0.
    ghost predicate WroteAll()
      reads this
    {
      && |written| == |emitted|
      && forall i :: 0 <= i < |written| ==> Wrote(written[i], i, emitted[i], maxFrame)
    }

    ghost predicate Valid()
      reads this, frame, frame.data, frame.bounds
    {
      && Configured(maxFrame) && frame.wide && frame.maxPackets == maxFrame / 1024 && frame.maxSize == maxFrame
      && frame.Carries(current) && Roomy(current, maxFrame)
      && frame.sequence == (|emitted| + 1) % 0x1_0000 && sequence == (|emitted| + 2) % 0x1_0000
      && WroteAll()
    }

    // frame_init, then the first tag of the next frame, which takes the next sequence number.
    method Begin()
      requires Configured(maxFrame) && frame.bounds.Length == frame.maxPackets && maxFrame <= frame.data.Length
      modifies this`sequence, frame, frame.data
      ensures frame.Carries([]) && frame.maxSize == maxFrame
      ensures frame.sequence == old(sequence) && sequence == (old(sequence) + 1) % 0x1_0000
    {
      frame.Init(maxFrame, sequence);
      var ok := frame.Begin();
      sequence := (sequence + 1) % 0x1_0000;
    }

    // frame_append_adth and frame_complete: the trailer always fits.
    method Finish() returns (bytes: seq<byte>)
      requires Valid()
      modifies frame, frame.data
      ensures Wrote(bytes, |emitted|, current, maxFrame)
    {
      assert frame.Fillable(current);
      var ok := frame.AppendAdth(0, current);
      bytes := frame.Complete();
    }

    // frame_push, and the start of the next frame.
    method Ship()
      requires Valid()
      modifies this`sequence, this`written, this`current, this`emitted, frame, frame.data
      ensures Valid() && View() == Shipped(old(View()))
      ensures old(written) <= written
    {
      var bytes := Finish();
      Log(bytes);
      Restart();
    }

    method Restart()
      requires Configured(maxFrame) && frame.wide && frame.maxPackets == maxFrame / 1024
      requires frame.bounds.Length == frame.maxPackets && maxFrame <= frame.data.Length
      requires sequence == (|emitted| + 1) % 0x1_0000 && WroteAll()
      modifies this`sequence, this`current, frame, frame.data
      ensures Valid() && current == []
    {
      Begin();
      current := [];
    }

    method Log(bytes: seq<byte>)
      requires WroteAll() && Wrote(bytes, |emitted|, current, maxFrame)
      modifies this`written, this`emitted
      ensures WroteAll() && written == old(written) + [bytes] && emitted == old(emitted) + [current]
    {
      written, emitted := written + [bytes], emitted + [current];
    }

    constructor (maxFrame: nat)
      requires Configured(maxFrame)
      ensures Valid() && View() == Coalescer([], [], false) && this.maxFrame == maxFrame && written == []
      ensures ControlFrame(control, 0, 0)
      ensures fresh(frame) && fresh(frame.data) && fresh(frame.bounds)
    {
      this.maxFrame := maxFrame;
      frame := new FrameBuilder(maxFrame / 1024, true, maxFrame);
      sequence, control, written, current, emitted := 0, [], [], [], [];
      new;
      SendControl();
      Restart();
    }

    // The control frame goes out first, and takes sequence number 0.
    method SendControl()
      requires Configured(maxFrame) && frame.bounds.Length == frame.maxPackets && maxFrame <= frame.data.Length
      requires sequence == 0
      modifies this`sequence, this`control, frame, frame.data
      ensures sequence == 1 && ControlFrame(control, 0, 0)
    {
      frame.Init(maxFrame, sequence);
      frame.AddControl(0);
      sequence := sequence + 1;
      control := frame.Complete();
    }

    method Append(p: packet) returns (ok: bool)
      requires Valid()
      modifies this`current, frame, frame.data, frame.bounds
      ensures Valid() && (ok <==> Admits(old(current), p, maxFrame))
      ensures current == if ok then old(current) + [p] else old(current)
    {
      ok := frame.AppendPacket(p, current);
      if ok {
        AdmittedRoomy(current, p, maxFrame, current + [p]);
        current := current + [p];
      }
    }

    /** handle_tun_frame: a packet that fits joins the current frame, which goes out only when it has its full number of
        packets; a packet that does not fit sends the current frame off and starts the next, unless it is too long for
        that; then the process exits with false. */
    method HandleTun(p: packet) returns (ok: bool)
      requires Valid()
      modifies this`sequence, this`written, this`current, this`emitted, frame, frame.data, frame.bounds
      ensures Valid() && View().(dead := !ok) == Handled(old(View()), p, maxFrame)
      ensures old(written) <= written
      ensures ok <==> |p| + 56 <= maxFrame
      ensures var joined := old(current) + [p];
        if |joined| <= maxFrame / 1024 && 48 + |Body(old(current))| + |p| + 8 * |joined| <= maxFrame then
          if |joined| < maxFrame / 1024 then current == joined && emitted == old(emitted)
          else current == [] && emitted == old(emitted) + [joined]
        else current == (if ok then [p] else []) && emitted == old(emitted) + [old(current)]
    {
      HandledFits(View(), p, maxFrame);
      ok := Append(p);
      if !ok || frame.nPackets >= maxFrame / 1024 {
        Ship();
      }
      if !ok {
        ok := Append(p);
      }
    }

    method DeadlineOver()
      requires Valid()
      modifies this`sequence, this`written, this`current, this`emitted, frame, frame.data
      ensures Valid() && View() == Expired(old(View()))
      ensures old(written) <= written && current == []
      ensures emitted == old(emitted) + if old(current) == [] then [] else [old(current)]
    {
      if frame.nPackets > 0 {
        Ship();
      }
    }

    /** Each frame that went out is read back as its packets. */
    lemma WrittenDecodes(i: nat)
      requires Valid() && i < |written|
      ensures UserRegions(written[i]) == KernelRegions(written[i]) == Some(Padded(emitted[i]))
    {
      assert Wrote(written[i], i, emitted[i], maxFrame);
      FrameRoundTrip(written[i], (i + 1) % 0x1_0000, 0, emitted[i], []);
      assert written[i] + [] == written[i];
    }

    // One event of the loop.
    method Do(a: Act) returns (ok: bool)
      requires Valid()
      modifies this`sequence, this`written, this`current, this`emitted, frame, frame.data, frame.bounds
      ensures Valid() && View().(dead := !ok) == Next(old(View()), a, maxFrame)
      ensures old(written) <= written
    {
      match a
      case Packet(p) => ok := HandleTun(p);
      case Deadline =>
        DeadlineOver();
        ok := true;
    }

    /** Any sequence of packets and deadlines: the process exits exactly at the first packet that is too long. All
        packets before it are, in order, in one of the frames written or, if there was no exit, in the current one. */
    method Perform(acts: seq<Act>) returns (ok: bool)
      requires Valid()
      modifies this`sequence, this`written, this`current, this`emitted, frame, frame.data, frame.bounds
      ensures Valid() && View().(dead := !ok) == Run(old(View()), acts, maxFrame)
      ensures ok <==> Fatal(acts, maxFrame) == |acts|
      ensures Content(View()) == Content(old(View())) + Inputs(acts[..Fatal(acts, maxFrame)])
      ensures !ok ==> current == []
      ensures old(written) <= written && |written| == |emitted|
      ensures forall i :: 0 <= i < |written| ==> UserRegions(written[i]) == Some(Padded(emitted[i]))
    {
      ok := true;
      EveryPacketOnce(View(), acts, maxFrame);
      for i := 0 to |acts|
        invariant ok && Valid() && Run(old(View()), acts, maxFrame) == Run(View(), acts[i..], maxFrame)
        invariant old(written) <= written
      {
        assert acts[i..][1..] == acts[i + 1..];
        ok := Do(acts[i]);
        if !ok {
          DeadStays(View().(dead := true), acts[i + 1..], maxFrame);
          break;
        }
      }
      forall i | 0 <= i < |written| ensures UserRegions(written[i]) == Some(Padded(emitted[i])) {
        WrittenDecodes(i);
      }
    }
  }
}
