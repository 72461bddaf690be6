/** The network device's transmit path: packets are admitted to a queue, and shipped later as one frame. */
module NetUplink {
  import opened Bytes
  import opened MuxChain
  import opened MuxFrame
  import opened MuxDecode
  import TxRing

  type packet = seq<byte>

  // Whether, with the packets before it loaded, packet i of the queue is taken into the frame.
  predicate Takes(q: seq<packet>, maxSize: nat, i: nat)
    requires i < |q|
  {
    i < MUX_MAX_PACKETS && 16 + |Body(q[..i])| + |q[i]| + 16 + (12 + 4 + (i + 1) * 8) <= maxSize
  }

  // How many packets go in, counting from the i-th, before the first is refused.
  function Loaded(q: seq<packet>, maxSize: nat, i: nat): (k: nat)
    requires i <= |q|
    ensures i <= k <= |q|
    decreases |q| - i
  {
    if i < |q| && Takes(q, maxSize, i) then Loaded(q, maxSize, i + 1) else i
  }

  predicate Builds(q: seq<packet>, maxSize: nat) {
    Loaded(q, maxSize, 0) == |q| && FrameSize(q) <= maxSize
  }

  // The size formula of the admission test, which knows nothing of alignment.
  predicate Fits(q: seq<packet>, maxSize: nat) {
    |q| <= MUX_MAX_PACKETS && 16 + |Body(q)| + (12 + 4 + |q| * 8) <= maxSize
  }

  lemma {:induction false} BodyPrefix(q: seq<packet>, i: nat)
    requires i <= |q|
    ensures |Body(q[..i])| + 16 * (|q| - i) <= |Body(q)|
    decreases |q|
  {
    if i < |q| {
      var n := |q| - 1;
      BodyPrefix(q[..n], i);
      assert q[..n][..i] == q[..i];
    } else {
      assert q[..i] == q;
    }
  }

  lemma BodyTakes(q: seq<packet>, i: nat)
    requires i < |q|
    ensures |Body(q[..i + 1])| == |Body(q[..i])| + 16 + |q[i]|
  {
    assert q[..i + 1] == q[..i] + [q[i]];
    BodySnoc(q[..i], q[i]);
  }

  lemma {:induction false} FittingLoads(q: seq<packet>, maxSize: nat, i: nat)
    requires Fits(q, maxSize) && i <= |q|
    ensures Loaded(q, maxSize, i) == |q|
    decreases |q| - i
  {
    if i < |q| {
      BodyPrefix(q, i + 1);
      BodyTakes(q, i);
      FittingLoads(q, maxSize, i + 1);
    }
  }

  lemma {:induction false} LoadingFits(q: seq<packet>, maxSize: nat, i: nat)
    requires i < |q| && Loaded(q, maxSize, i) == |q|
    ensures Fits(q, maxSize)
    decreases |q| - i
  {
    BodyTakes(q, i);
    if i + 1 < |q| {
      LoadingFits(q, maxSize, i + 1);
    } else {
      assert q[..i + 1] == q;
    }
  }

  /** The later build succeeds exactly on the queues the admission test allows. */
  lemma BuildsIff(q: seq<packet>, maxSize: nat)
    requires q != [] && maxSize % 4 == 0
    ensures Builds(q, maxSize) <==> Fits(q, maxSize)
  {
    if Fits(q, maxSize) {
      FittingLoads(q, maxSize, 0);
    }
    if Builds(q, maxSize) {
      LoadingFits(q, maxSize, 0);
    }
  }

  /** And it does so for every admitted queue only because the maximum size is a multiple of 4. */
  lemma AlignmentAbsorbed(maxSize: nat)
    requires maxSize >= 56
    ensures (forall q: seq<packet> :: q != [] && Fits(q, maxSize) ==> Builds(q, maxSize)) <==> maxSize % 4 == 0
  {
    if maxSize % 4 == 0 {
      forall q: seq<packet> | q != [] && Fits(q, maxSize) ensures Builds(q, maxSize) {
        BuildsIff(q, maxSize);
      }
    } else {
      var p := Zeros(maxSize - 56);
      BodySnoc([], p);
      assert [] + [p] == [p];
      assert Fits([p], maxSize) && !Builds([p], maxSize);
    }
  }

  datatype Fate = Shipped | RingFull | DeviceError | BuildFailed

  // One flush: its sequence number, the packets it took off the queue, what became of them, and the frame.
  datatype Batch = Batch(seqno: nat, packets: seq<packet>, fate: Fate, frame: seq<byte>)

  // ring.error is xmm->error. accepted, batches, before and first, the sequence number of the control message, are
  // histories since the device was opened.
  datatype Net = Net(ring: TxRing.Tx, channel: nat, queue: seq<packet>, packets: int, bytes: int, sequence: nat,
                     stopped: bool, accepted: seq<packet>, batches: seq<Batch>, before: seq<seq<byte>>, first: nat) {
    function MaxSize(): nat {
      ring.ring.pageSize
    }

    predicate MustFlush(len: nat) {
      || packets >= MUX_MAX_PACKETS
      || 16 + bytes + 12 + 4 + 8 * packets + (16 + len + 8) > MaxSize()
    }
  }

  // net_open: the queue is purged and a control frame goes out, with the modem running during the write.
  ghost function Opened(n: Net, control: seq<byte>, env: TxRing.Env): Net
    requires n.ring.Typed() && TxRing.ModemEnv(env)
  {
    var ring := TxRing.Returned(n.ring, control, env);
    n.(ring := ring, queue := [], packets := 0, bytes := 0, stopped := false,
       accepted := [], batches := [], before := ring.accepted, first := n.sequence)
  }

  lemma OpenedIs(n: Net, t: Net, control: seq<byte>, env: TxRing.Env)
    requires n.ring.Typed() && TxRing.ModemEnv(env) && t.ring == TxRing.Returned(n.ring, control, env)
    requires t.queue == [] && t.packets == t.bytes == 0 && !t.stopped && t.accepted == [] && t.batches == []
    requires t.channel == n.channel && t.sequence == t.first == n.sequence && t.before == t.ring.accepted
    ensures t == Opened(n, control, env)
  {}

  /** The device starts empty, and the control message is written unless an error or a full ring stands in the way. */
  lemma OpenedMeans(n: Net, control: seq<byte>, env: TxRing.Env)
    requires TxRing.Inv(n.ring) && n.ring.pc == TxRing.Idle && |control| <= n.MaxSize() && TxRing.ModemEnv(env)
    ensures var t := Opened(n, control, env);
      && t.queue == [] && t.packets == t.bytes == 0 && !t.stopped && t.sequence == n.sequence
      && t.accepted == [] && t.batches == [] && t.before == t.ring.accepted
      && t.ring.accepted == n.ring.accepted + (if n.ring.error == 0 && !n.ring.ring.Full() then [control] else [])
      && t.ring.ret == if n.ring.error != 0 then n.ring.error else if n.ring.ring.Full() then 0 else |control|
  {
    TxRing.WriteOutcome(n.ring, control, env);
    assert control[..|control|] == control;
  }

  // net_flush, with the modem running during the write. A full ring makes the push return 0, which counts as success.
  ghost function Flushed(n: Net, frame: seq<byte>, env: TxRing.Env): (t: Net)
    requires n.ring.Typed() && TxRing.ModemEnv(env)
    ensures t.ring.Typed()
  {
    var q, k := n.queue, Loaded(n.queue, n.MaxSize(), 0);
    var ring := TxRing.Returned(n.ring, frame, env);
    if q == [] then n
    else if k < |q| then
      n.(sequence := n.sequence + 1, queue := q[k + 1..],
         batches := n.batches + [Batch(n.sequence + 1, q[..k + 1], BuildFailed, [])])
    else if FrameSize(q) > n.MaxSize() then
      n.(sequence := n.sequence + 1, queue := [],
         batches := n.batches + [Batch(n.sequence + 1, q, BuildFailed, [])])
    else if ring.ret < 0 then
      n.(ring := ring, sequence := n.sequence + 1, queue := [],
         batches := n.batches + [Batch(n.sequence + 1, q, DeviceError, frame)])
    else
      n.(ring := ring, sequence := n.sequence + 1, queue := [], packets := 0, bytes := 0,
         batches := n.batches + [Batch(n.sequence + 1, q, if n.ring.CanWrite() then Shipped else RingFull, frame)])
  }

  function Queued(n: Net, p: packet): Net {
    n.(packets := n.packets + 1, bytes := n.bytes + 16 + |p|, queue := n.queue + [p], accepted := n.accepted + [p])
  }

  // The state in which xmit's flush runs: the modem has been at work since the check for room.
  ghost function Later(n: Net, between: seq<TxRing.Act>): (m: Net)
    requires n.ring.Typed()
    ensures m.ring.Typed()
  {
    TxRing.RingSizes(n.ring, between);
    n.(ring := TxRing.Run(n.ring, between))
  }

  // net_xmit, with the modem also running between the check for room and the flush; false is NETDEV_TX_BUSY.
  ghost function Sent(n: Net, p: packet, between: seq<TxRing.Act>, frame: seq<byte>, env: TxRing.Env): (Net, bool)
    requires n.ring.Typed() && TxRing.ModemEnv(env)
  {
    if n.stopped then (n, false)
    else if !n.MustFlush(|p|) then (Queued(n, p), true)
    else if !n.ring.CanWrite() then (n.(stopped := true), false)
    else (Queued(Flushed(Later(n, between), frame, env), p), true)
  }

  datatype Act =
    | Xmit(p: packet, between: seq<TxRing.Act>, frame: seq<byte>, env: TxRing.Env)
    | Deadline(frame: seq<byte>, env: TxRing.Env)
    | Wake
    | Modem(acts: seq<TxRing.Act>)
    | Fail(error: int)

  // The modem only ever takes buffers.
  ghost predicate ModemOnly(a: Act) {
    match a
    case Xmit(_, between, _, env) => TxRing.DeviceOnly(between) && TxRing.ModemEnv(env)
    case Deadline(_, env) => TxRing.ModemEnv(env)
    case Modem(acts) => TxRing.DeviceOnly(acts)
    case _ => true
  }

  ghost function Next(n: Net, a: Act): Net
    requires n.ring.Typed() && ModemOnly(a)
  {
    match a
    case Xmit(p, between, frame, env) => Sent(n, p, between, frame, env).0
    case Deadline(frame, env) => Flushed(n, frame, env)
    case Wake => if n.ring.CanWrite() then n.(stopped := false) else n
    case Modem(acts) => n.(ring := TxRing.Run(n.ring, acts))
    case Fail(error) => n.(ring := TxRing.Next(n.ring, TxRing.Fail(error)))
  }

  // The frame is the one the builder makes for the queue at hand, if there is anything to build.
  ghost predicate FrameFor(n: Net, frame: seq<byte>) {
    n.queue != [] && Builds(n.queue, n.MaxSize()) ==> NetFrame(frame, n.sequence + 1, n.channel, n.queue)
  }

  predicate Flushes(n: Net, len: nat)
    requires n.ring.ring.depth > 0
  {
    !n.stopped && n.MustFlush(len) && n.ring.CanWrite()
  }

  // What the surroundings may do: packets within the MTU, a modem that only takes buffers, frames as the builder
  // makes them for the queue at hand.
  ghost predicate Allowed(n: Net, a: Act)
    requires n.ring.ring.depth > 0
  {
    && ModemOnly(a)
    && match a {
         case Xmit(p, _, frame, _) => |p| + 56 <= n.MaxSize() && (Flushes(n, |p|) ==> FrameFor(n, frame))
         case Deadline(frame, _) => FrameFor(n, frame)
         case Fail(error) => error <= 0
         case _ => true
       }
  }

  function Packets(bs: seq<Batch>): seq<packet> {
    if bs == [] then [] else Packets(bs[..|bs| - 1]) + bs[|bs| - 1].packets
  }

  function Frames(bs: seq<Batch>): seq<seq<byte>> {
    if bs == [] then []
    else Frames(bs[..|bs| - 1]) + if bs[|bs| - 1].fate == Shipped then [bs[|bs| - 1].frame] else []
  }

  // A frame with the batch's sequence number, made for the batch's packets.
  ghost predicate Sound(b: Batch, channel: nat, maxSize: nat) {
    b.fate != BuildFailed && |b.frame| <= maxSize && NetFrame(b.frame, b.seqno, channel, b.packets)
  }

  ghost predicate AllSound(bs: seq<Batch>, channel: nat, maxSize: nat) {
    forall b {:trigger Sound(b, channel, maxSize)} :: b in bs ==> Sound(b, channel, maxSize)
  }

  // Consecutive sequence numbers, the control message's being first.
  ghost predicate Numbered(bs: seq<Batch>, first: nat, last: nat) {
    last == first + |bs| && forall i :: 0 <= i < |bs| ==> bs[i].seqno == first + 1 + i
  }

  // The counters bound the queue from above, and are exact until an error drops a frame without resetting them.
  ghost predicate Counted(n: Net) {
    && |n.queue| <= n.packets && |Body(n.queue)| <= n.bytes
    && ((forall b :: b in n.batches ==> b.fate != DeviceError) ==> n.packets == |n.queue| && n.bytes == |Body(n.queue)|)
  }

  ghost predicate RingReady(ring: TxRing.Tx) {
    && TxRing.Inv(ring) && ring.pc == TxRing.Idle && ring.error <= 0
    && ring.ring.pageSize % 4 == 0 && 56 <= ring.ring.pageSize <= 16384
  }

  // Nothing was lost or reordered, and what was written is what was shipped.
  ghost predicate Logged(n: Net) {
    && n.accepted == Packets(n.batches) + n.queue
    && n.ring.accepted == n.before + Frames(n.batches)
    && Numbered(n.batches, n.first, n.sequence)
    && AllSound(n.batches, n.channel, n.MaxSize())
  }

  ghost predicate Inv(n: Net) {
    RingReady(n.ring) && Fits(n.queue, n.MaxSize()) && Counted(n) && Logged(n)
  }

  lemma PacketsSnoc(bs: seq<Batch>, b: Batch)
    ensures Packets(bs + [b]) == Packets(bs) + b.packets
    ensures Frames(bs + [b]) == Frames(bs) + if b.fate == Shipped then [b.frame] else []
  {
    assert (bs + [b])[..|bs|] == bs;
  }

  lemma OpenedInv(n: Net, control: seq<byte>, env: TxRing.Env)
    requires RingReady(n.ring) && TxRing.ModemEnv(env)
    ensures Inv(Opened(n, control, env))
  {
    TxRing.WriteOutcome(n.ring, control, env);
  }

  function BatchOf(n: Net, frame: seq<byte>): Batch
    requires n.ring.ring.depth > 0
  {
    Batch(n.sequence + 1, n.queue,
          if n.ring.error < 0 then DeviceError else if n.ring.CanWrite() then Shipped else RingFull, frame)
  }

  lemma BatchIsSound(n: Net, frame: seq<byte>)
    requires Builds(n.queue, n.MaxSize()) && NetFrame(frame, n.sequence + 1, n.channel, n.queue)
    requires n.ring.ring.depth > 0
    ensures Sound(BatchOf(n, frame), n.channel, n.MaxSize())
  {
    FrameLayout(frame, n.sequence + 1, n.channel, n.queue);
  }

  lemma PushedIsFlushed(n: Net, t: Net, bytes: seq<byte>, env: TxRing.Env, ring: TxRing.Tx)
    requires n.ring.Typed() && TxRing.ModemEnv(env) && n.queue != [] && Builds(n.queue, n.MaxSize())
    requires ring == TxRing.Returned(n.ring, bytes, env)
    requires t == n.(ring := ring, sequence := n.sequence + 1, queue := [], packets := t.packets, bytes := t.bytes,
                     batches := t.batches)
    requires if ring.ret < 0 then t.packets == n.packets && t.bytes == n.bytes else t.packets == t.bytes == 0
    requires t.batches == n.batches + [Batch(n.sequence + 1, n.queue,
      if ring.ret < 0 then DeviceError else if n.ring.CanWrite() then Shipped else RingFull, bytes)]
    ensures t == Flushed(n, bytes, env)
  {}

  lemma DroppedIsFlushed(n: Net, t: Net, bytes: seq<byte>, env: TxRing.Env, k: nat)
    requires n.ring.Typed() && TxRing.ModemEnv(env) && n.queue != []
    requires !Builds(n.queue, n.MaxSize()) && k == Loaded(n.queue, n.MaxSize(), 0)
    requires t == n.(sequence := n.sequence + 1, queue := t.queue, batches := t.batches)
    requires t.queue == if k < |n.queue| then n.queue[k + 1..] else []
    requires t.batches == n.batches + [Batch(n.sequence + 1,
      if k < |n.queue| then n.queue[..k + 1] else n.queue, BuildFailed, [])]
    ensures t == Flushed(n, bytes, env)
  {}

  lemma RingTakes(ring: TxRing.Tx, frame: seq<byte>, env: TxRing.Env, r: TxRing.Tx)
    requires TxRing.Inv(ring) && ring.pc == TxRing.Idle && ring.error <= 0 && |frame| <= ring.ring.pageSize
    requires TxRing.ModemEnv(env) && r == TxRing.Returned(ring, frame, env)
    ensures TxRing.Inv(r) && r.pc == TxRing.Idle && r.error == ring.error && (r.ret < 0 <==> r.error < 0)
    ensures r.ring.pageSize == ring.ring.pageSize
    ensures r.accepted == ring.accepted + (if ring.error == 0 && ring.CanWrite() then [frame] else [])
  {
    TxRing.WriteOutcome(ring, frame, env);
    assert frame[..|frame|] == frame;
  }

  lemma FlushWrites(n: Net, frame: seq<byte>, env: TxRing.Env)
    requires TxRing.Inv(n.ring) && n.ring.pc == TxRing.Idle && n.ring.error <= 0 && TxRing.ModemEnv(env)
    requires n.queue != [] && Builds(n.queue, n.MaxSize()) && |frame| <= n.MaxSize()
    ensures var t := Flushed(n, frame, env);
      && t.ring == TxRing.Returned(n.ring, frame, env) && TxRing.Inv(t.ring) && t.ring.pc == TxRing.Idle
      && t.ring.error == n.ring.error && t.MaxSize() == n.MaxSize()
      && t.ring.accepted == n.ring.accepted + (if n.ring.error == 0 && n.ring.CanWrite() then [frame] else [])
      && (if n.ring.error < 0 then t.packets == n.packets && t.bytes == n.bytes else t.packets == t.bytes == 0)
      && t.batches == n.batches + [BatchOf(n, frame)]
      && t == n.(ring := t.ring, sequence := n.sequence + 1, queue := [], packets := t.packets, bytes := t.bytes,
                 batches := t.batches)
  {
    var ring := TxRing.Returned(n.ring, frame, env);
    RingTakes(n.ring, frame, env, ring);
    var failed := ring.ret < 0;
    var t := n.(ring := ring, sequence := n.sequence + 1, queue := [], packets := if failed then n.packets else 0,
                bytes := if failed then n.bytes else 0, batches := n.batches + [BatchOf(n, frame)]);
    PushedIsFlushed(n, t, frame, env, ring);
  }

  lemma SoundSnoc(bs: seq<Batch>, b: Batch, channel: nat, maxSize: nat)
    requires AllSound(bs, channel, maxSize) && Sound(b, channel, maxSize)
    ensures AllSound(bs + [b], channel, maxSize)
  {}

  lemma BatchKeepsLogged(n: Net, t: Net, b: Batch)
    requires Logged(n) && Sound(b, n.channel, n.MaxSize()) && b.packets == n.queue && b.seqno == n.sequence + 1
    requires t.MaxSize() == n.MaxSize() && t.channel == n.channel && t.before == n.before
    requires t.first == n.first && t.sequence == n.sequence + 1
    requires t.queue == [] && t.accepted == n.accepted && t.batches == n.batches + [b]
    requires t.ring.accepted == n.ring.accepted + (if b.fate == Shipped then [b.frame] else [])
    ensures Logged(t)
  {
    PacketsSnoc(n.batches, b);
    SoundSnoc(n.batches, b, n.channel, n.MaxSize());
    assert Packets(t.batches) + t.queue == t.accepted;
    assert t.ring.accepted == t.before + Frames(t.batches);
  }

  lemma BatchKeepsCounted(n: Net, t: Net, b: Batch)
    requires Counted(n) && t.queue == [] && t.batches == n.batches + [b]
    requires if b.fate == DeviceError then t.packets == n.packets && t.bytes == n.bytes else t.packets == t.bytes == 0
    ensures Counted(t)
  {
    assert t.batches[|n.batches|] == b;
  }

  /** An admitted queue always builds, and one flush turns it into one batch. */
  lemma FlushBatch(n: Net, frame: seq<byte>, env: TxRing.Env)
    requires TxRing.ModemEnv(env) && Inv(n) && n.queue != [] && FrameFor(n, frame)
    ensures Builds(n.queue, n.MaxSize())
    ensures Sound(BatchOf(n, frame), n.channel, n.MaxSize())
    ensures Flushed(n, frame, env).batches == n.batches + [BatchOf(n, frame)]
  {
    BuildsIff(n.queue, n.MaxSize());
    BatchIsSound(n, frame);
    FlushWrites(n, frame, env);
  }

  lemma FlushKeepsInv(n: Net, frame: seq<byte>, env: TxRing.Env)
    requires TxRing.ModemEnv(env) && Inv(n) && FrameFor(n, frame)
    ensures Inv(Flushed(n, frame, env)) && Flushed(n, frame, env).queue == []
    ensures Flushed(n, frame, env).MaxSize() == n.MaxSize()
  {
    if n.queue != [] {
      FlushBatch(n, frame, env);
      FlushWrites(n, frame, env);
      BatchKeepsLogged(n, Flushed(n, frame, env), BatchOf(n, frame));
      BatchKeepsCounted(n, Flushed(n, frame, env), BatchOf(n, frame));
    }
  }

  // What a flush of a queue does: one batch of the whole queue, written unless an error or a full ring stands in the
  // way; a full ring discards it like success, an error leaves the counters as they are.
  ghost predicate Ships(n: Net, t: Net, frame: seq<byte>)
    requires n.ring.ring.depth > 0
  {
    var full := n.ring.ring.Full();
    && t.queue == [] && t.sequence == n.sequence + 1 && t.accepted == n.accepted && t.stopped == n.stopped
    && t.batches == n.batches + [Batch(n.sequence + 1, n.queue,
         if n.ring.error < 0 then DeviceError else if full then RingFull else Shipped, frame)]
    && t.ring.accepted == n.ring.accepted + (if n.ring.error == 0 && !full then [frame] else [])
    && (if n.ring.error < 0 then t.packets == n.packets && t.bytes == n.bytes else t.packets == t.bytes == 0)
  }

  lemma FlushShips(n: Net, frame: seq<byte>, env: TxRing.Env)
    requires TxRing.ModemEnv(env) && Inv(n) && n.queue != [] && FrameFor(n, frame)
    ensures Ships(n, Flushed(n, frame, env), frame)
  {
    FlushBatch(n, frame, env);
    FlushWrites(n, frame, env);
  }

  lemma QueuedStaysCounted(n: Net, p: packet, queue: seq<packet>)
    requires Counted(n) && Fits(n.queue, n.MaxSize()) && |p| + 56 <= n.MaxSize() && queue == n.queue + [p]
    requires n.queue == [] || !n.MustFlush(|p|)
    ensures Counted(Queued(n, p)) && Fits(queue, n.MaxSize())
  {
    BodySnoc(n.queue, p);
  }

  lemma QueuedStaysLogged(n: Net, p: packet, queue: seq<packet>, accepted: seq<packet>)
    requires Logged(n) && queue == n.queue + [p] && accepted == n.accepted + [p]
    ensures Logged(Queued(n, p))
  {
    assert accepted == Packets(n.batches) + queue;
  }

  lemma QueuedKeepsInv(n: Net, p: packet)
    requires Inv(n) && |p| + 56 <= n.MaxSize()
    requires n.queue == [] || !n.MustFlush(|p|)
    ensures Inv(Queued(n, p))
  {
    var queue := n.queue + [p];
    QueuedStaysCounted(n, p, queue);
    QueuedStaysLogged(n, p, queue, n.accepted + [p]);
  }

  lemma LaterKeepsInv(n: Net, between: seq<TxRing.Act>)
    requires Inv(n) && n.ring.CanWrite() && TxRing.DeviceOnly(between)
    ensures var m := Later(n, between);
      Inv(m) && m.ring.CanWrite() && m.ring.error == n.ring.error && m.MaxSize() == n.MaxSize()
  {
    TxRing.RoomStays(n.ring, between);
    TxRing.RingSizes(n.ring, between);
  }

  lemma LaterFrame(n: Net, between: seq<TxRing.Act>, frame: seq<byte>)
    requires n.ring.Typed()
    ensures FrameFor(Later(n, between), frame) <==> FrameFor(n, frame)
  {
    TxRing.RingSizes(n.ring, between);
    SameFrame(n, Later(n, between), frame);
  }

  lemma SameFrame(n: Net, m: Net, frame: seq<byte>)
    requires m.queue == n.queue && m.MaxSize() == n.MaxSize() && m.sequence == n.sequence && m.channel == n.channel
    ensures FrameFor(m, frame) <==> FrameFor(n, frame)
  {}

  lemma FlushedSendKeepsInv(n: Net, p: packet, between: seq<TxRing.Act>, frame: seq<byte>, env: TxRing.Env)
    requires Inv(n) && n.ring.CanWrite() && TxRing.DeviceOnly(between) && TxRing.ModemEnv(env)
    requires FrameFor(n, frame) && |p| + 56 <= n.MaxSize()
    ensures var m := Later(n, between); m.ring.Typed() && Inv(Queued(Flushed(m, frame, env), p))
  {
    var m := Later(n, between);
    LaterKeepsInv(n, between);
    LaterFrame(n, between, frame);
    FlushKeepsInv(m, frame, env);
    QueuedKeepsInv(Flushed(m, frame, env), p);
  }

  // The queue has become one more batch, if it held anything.
  ghost predicate Batched(before: seq<Batch>, after: seq<Batch>, queue: seq<packet>) {
    if queue == [] then after == before
    else |after| == |before| + 1 && before <= after && after[|before|].packets == queue
  }

  lemma FlushBatches(m: Net, frame: seq<byte>, env: TxRing.Env)
    requires TxRing.ModemEnv(env) && Inv(m) && FrameFor(m, frame)
    ensures Batched(m.batches, Flushed(m, frame, env).batches, m.queue) && Flushed(m, frame, env).queue == []
  {
    if m.queue != [] {
      FlushShips(m, frame, env);
    }
  }

  /** An xmit that has to make room turns the whole queue into one batch, and the packet starts the next queue. */
  lemma SentFlushes(n: Net, p: packet, between: seq<TxRing.Act>, frame: seq<byte>, env: TxRing.Env)
    requires Inv(n) && TxRing.DeviceOnly(between) && TxRing.ModemEnv(env) && FrameFor(n, frame)
    requires !n.stopped && n.MustFlush(|p|) && n.ring.CanWrite()
    ensures var t := Sent(n, p, between, frame, env).0; t.queue == [p] && Batched(n.batches, t.batches, n.queue)
  {
    LaterKeepsInv(n, between);
    LaterFrame(n, between, frame);
    FlushBatches(Later(n, between), frame, env);
  }

  lemma SentKeepsInv(n: Net, p: packet, between: seq<TxRing.Act>, frame: seq<byte>, env: TxRing.Env)
    requires Inv(n) && Allowed(n, Xmit(p, between, frame, env))
    ensures Inv(Sent(n, p, between, frame, env).0)
  {
    if Flushes(n, |p|) {
      FlushedSendKeepsInv(n, p, between, frame, env);
    } else if !n.stopped && !n.MustFlush(|p|) {
      QueuedKeepsInv(n, p);
    }
  }

  // The size formula of the admission test, for one more packet of len bytes.
  predicate FitsToo(packets: int, bytes: int, len: nat, maxSize: nat) {
    packets < 64 && 16 + bytes + 16 + 8 * packets + 16 + len + 8 <= maxSize
  }

  // xmit answers true exactly if the device is not stopped and the packet fits into the frame to be or the ring has
  // room; it then is the last packet accepted and the last in the queue. Otherwise nothing is taken.
  ghost predicate Answers(n: Net, p: packet, t: Net, ok: bool)
    requires n.ring.ring.depth > 0
  {
    var fits := FitsToo(n.packets, n.bytes, |p|, n.MaxSize());
    && (ok <==> !n.stopped && (fits || !n.ring.ring.Full()))
    && (ok ==> t.accepted == n.accepted + [p] && |t.queue| > 0 && t.queue[|t.queue| - 1] == p && !t.stopped)
    && (!ok ==> t.accepted == n.accepted && t.queue == n.queue && t.batches == n.batches && t.stopped)
    && (ok && fits ==> t.queue == n.queue + [p] && t.batches == n.batches && t.sequence == n.sequence
                       && t.packets == n.packets + 1 && t.bytes == n.bytes + 16 + |p| && t.ring == n.ring)
  }

  lemma SentAnswers(n: Net, p: packet, between: seq<TxRing.Act>, frame: seq<byte>, env: TxRing.Env)
    requires n.ring.Typed() && TxRing.ModemEnv(env)
    ensures var (t, ok) := Sent(n, p, between, frame, env); Answers(n, p, t, ok)
  {}

  lemma {:induction false} DeviceRunKeepsInv(ring: TxRing.Tx, acts: seq<TxRing.Act>)
    requires TxRing.Inv(ring) && ring.pc == TxRing.Idle && TxRing.DeviceOnly(acts)
    ensures var t := TxRing.Run(ring, acts);
      TxRing.Inv(t) && t.pc == TxRing.Idle && t.error == ring.error && t.accepted == ring.accepted
      && t.ring.pageSize == ring.ring.pageSize
    decreases |acts|
  {
    if acts != [] {
      assert TxRing.DeviceAct(acts[0]);
      TxRing.NextKeepsInv(ring, acts[0]);
      DeviceRunKeepsInv(TxRing.Next(ring, acts[0]), acts[1..]);
    }
  }

  lemma RingKeepsInv(n: Net, ring: TxRing.Tx)
    requires Inv(n) && RingReady(ring) && ring.ring.pageSize == n.MaxSize() && ring.accepted == n.ring.accepted
    ensures Inv(n.(ring := ring))
  {}

  lemma NextKeepsInv(n: Net, a: Act)
    requires Inv(n) && Allowed(n, a)
    ensures Inv(Next(n, a))
  {
    match a
    case Xmit(p, between, frame, env) => SentKeepsInv(n, p, between, frame, env);
    case Deadline(frame, env) => FlushKeepsInv(n, frame, env);
    case Wake =>
    case Modem(acts) =>
      DeviceRunKeepsInv(n.ring, acts);
      RingKeepsInv(n, TxRing.Run(n.ring, acts));
    case Fail(error) =>
      TxRing.NextKeepsInv(n.ring, TxRing.Fail(error));
      RingKeepsInv(n, TxRing.Next(n.ring, TxRing.Fail(error)));
  }

  ghost function Run(n: Net, acts: seq<Act>): Net
    requires Inv(n) && AllAllowed(n, acts)
    decreases |acts|
  {
    if acts == [] then n
    else
      NextKeepsInv(n, acts[0]);
      Run(Next(n, acts[0]), acts[1..])
  }

  ghost predicate AllAllowed(n: Net, acts: seq<Act>)
    requires Inv(n)
    decreases |acts|
  {
    acts == [] || (Allowed(n, acts[0]) && (NextKeepsInv(n, acts[0]); AllAllowed(Next(n, acts[0]), acts[1..])))
  }

  lemma {:induction false} RunKeepsInv(n: Net, acts: seq<Act>)
    requires Inv(n) && AllAllowed(n, acts)
    ensures Inv(Run(n, acts))
    decreases |acts|
  {
    if acts != [] {
      NextKeepsInv(n, acts[0]);
      RunKeepsInv(Next(n, acts[0]), acts[1..]);
    }
  }

  lemma RunFirst(n: Net, acts: seq<Act>, a: Act, rest: seq<Act>)
    requires Inv(n) && acts == [a] + rest && Allowed(n, a)
    ensures Inv(Next(n, a)) && (AllAllowed(n, acts) <==> AllAllowed(Next(n, a), rest))
    ensures AllAllowed(n, acts) ==> Run(n, acts) == Run(Next(n, a), rest)
  {
    NextKeepsInv(n, a);
    assert acts[0] == a && acts[1..] == rest;
  }

  lemma {:induction false} RunSnoc(n: Net, acts: seq<Act>, a: Act)
    requires Inv(n) && AllAllowed(n, acts)
    requires (RunKeepsInv(n, acts); Allowed(Run(n, acts), a))
    ensures AllAllowed(n, acts + [a]) && Run(n, acts + [a]) == Next(Run(n, acts), a)
    decreases |acts|
  {
    if acts == [] {
      RunFirst(n, acts + [a], a, []);
      assert Run(Next(n, a), []) == Next(n, a);
    } else {
      RunFirst(n, acts, acts[0], acts[1..]);
      RunSnoc(Next(n, acts[0]), acts[1..], a);
      RunFirst(n, acts + [a], acts[0], acts[1..] + [a]);
    }
  }

  // Every queue still builds into a frame; the accepted packets are, in order, the batches and then the queue; what was
  // written to the ring is the shipped batches' frames, in order, and the modem takes it in this order; the frames are
  // numbered consecutively; and each is read back by both C readers as its batch's packets.
  ghost predicate Conserved(t: Net) {
    && Counted(t) && Fits(t.queue, t.MaxSize())
    && (t.queue != [] ==> Builds(t.queue, t.MaxSize()))
    && t.accepted == Packets(t.batches) + t.queue
    && t.ring.taken <= t.ring.accepted == t.before + Frames(t.batches)
    && Numbered(t.batches, t.first, t.sequence)
    && forall b {:trigger Readable(b, t.channel)} :: b in t.batches ==> Readable(b, t.channel)
  }

  // A frame with the batch's sequence number, which both C readers read back as the batch's packets.
  ghost predicate Readable(b: Batch, channel: nat) {
    && b.fate != BuildFailed && NetFrame(b.frame, b.seqno, channel, b.packets)
    && KernelRegions(b.frame) == UserRegions(b.frame) == Some(Padded(b.packets))
  }

  lemma SoundIsReadable(b: Batch, channel: nat, maxSize: nat)
    requires Sound(b, channel, maxSize) && maxSize < 0x1_0000
    ensures Readable(b, channel)
  {
    FrameRoundTrip(b.frame, b.seqno, channel, b.packets, []);
    assert b.frame + [] == b.frame;
  }

  lemma InvConserves(t: Net)
    requires Inv(t)
    ensures Conserved(t)
  {
    if t.queue != [] {
      BuildsIff(t.queue, t.MaxSize());
    }
    forall b | b in t.batches ensures Readable(b, t.channel) {
      SoundIsReadable(b, t.channel, t.MaxSize());
    }
  }

  // t is where these acts lead from n.
  ghost predicate Reached(n: Net, acts: seq<Act>, t: Net) {
    Inv(n) && AllAllowed(n, acts) && Run(n, acts) == t
  }

  lemma ReachedStart(n: Net)
    requires Inv(n)
    ensures Reached(n, [], n)
  {}

  lemma ReachedConserves(n: Net, acts: seq<Act>, t: Net)
    requires Reached(n, acts, t)
    ensures Inv(t) && Conserved(t)
  {
    RunKeepsInv(n, acts);
    InvConserves(t);
  }

  /** From opening on, however xmit, deadline, modem and errors interleave, nothing is lost without a trace. */
  lemma UplinkConserves(n: Net, control: seq<byte>, env: TxRing.Env, acts: seq<Act>)
    requires RingReady(n.ring) && TxRing.ModemEnv(env)
    requires (OpenedInv(n, control, env); AllAllowed(Opened(n, control, env), acts))
    ensures Inv(Opened(n, control, env)) && Conserved(Run(Opened(n, control, env), acts))
  {
    OpenedInv(n, control, env);
    ReachedConserves(Opened(n, control, env), acts, Run(Opened(n, control, env), acts));
  }

  lemma FlushedSendShips(n: Net, between: seq<TxRing.Act>, frame: seq<byte>, env: TxRing.Env)
    requires Inv(n) && n.ring.CanWrite() && TxRing.DeviceOnly(between) && TxRing.ModemEnv(env)
    requires FrameFor(n, frame) && n.queue != [] && n.ring.error == 0
    ensures var m := Later(n, between);
      m.ring.Typed()
      && Flushed(m, frame, env).batches == n.batches + [Batch(n.sequence + 1, n.queue, Shipped, frame)]
  {
    LaterReady(n, between, frame, Later(n, between));
    ShippedBatch(Later(n, between), frame, env);
  }

  lemma LaterReady(n: Net, between: seq<TxRing.Act>, frame: seq<byte>, m: Net)
    requires Inv(n) && n.ring.CanWrite() && TxRing.DeviceOnly(between) && FrameFor(n, frame)
    requires m == Later(n, between)
    ensures Inv(m) && FrameFor(m, frame) && m.ring.CanWrite() && m.ring.error == n.ring.error
    ensures m.queue == n.queue && m.batches == n.batches && m.sequence == n.sequence
  {
    LaterKeepsInv(n, between);
    LaterFrame(n, between, frame);
  }

  lemma ShippedBatch(m: Net, frame: seq<byte>, env: TxRing.Env)
    requires TxRing.ModemEnv(env) && Inv(m) && FrameFor(m, frame) && m.queue != []
    requires m.ring.error == 0 && m.ring.CanWrite()
    ensures Flushed(m, frame, env).batches == m.batches + [Batch(m.sequence + 1, m.queue, Shipped, frame)]
  {
    FlushShips(m, frame, env);
  }

  /** Xmit may flush, but never loses a frame: with room seen and no error, the batch is shipped. */
  lemma XmitShips(n: Net, p: packet, between: seq<TxRing.Act>, frame: seq<byte>, env: TxRing.Env)
    requires Inv(n) && Allowed(n, Xmit(p, between, frame, env)) && n.ring.error == 0
    ensures Sent(n, p, between, frame, env).0.batches
         == if !n.stopped && !FitsToo(n.packets, n.bytes, |p|, n.MaxSize()) && !n.ring.ring.Full() && n.queue != []
            then n.batches + [Batch(n.sequence + 1, n.queue, Shipped, frame)] else n.batches
  {
    if n.queue == [] {
      NothingFromNothing(n, p, between, frame, env);
    } else if Flushes(n, |p|) {
      FlushedSendShips(n, between, frame, env);
    }
  }

  /** While xmm->error is 0 a frame is discarded exactly by a deadline that finds the ring full. */
  lemma DiscardedOnlyByDeadline(n: Net, a: Act)
    requires Inv(n) && Allowed(n, a) && n.ring.error == 0
    ensures var t := Next(n, a);
      && (t.batches == n.batches
          || (|t.batches| == |n.batches| + 1 && n.batches <= t.batches
              && t.batches[|n.batches|].packets == n.queue != []))
      && ((t.batches != n.batches && t.batches[|t.batches| - 1].fate != Shipped)
          <==> (a.Deadline? && n.queue != [] && n.ring.ring.Full()))
  {
    match a
    case Deadline(frame, env) =>
      if n.queue != [] {
        FlushBatch(n, frame, env);
      }
    case Xmit(p, between, frame, env) =>
      XmitShips(n, p, between, frame, env);
      if n.queue == [] {
        NothingFromNothing(n, p, between, frame, env);
      }
    case _ =>
  }

  lemma NothingFromNothing(n: Net, p: packet, between: seq<TxRing.Act>, frame: seq<byte>, env: TxRing.Env)
    requires n.ring.Typed() && TxRing.ModemEnv(env) && n.queue == []
    ensures Sent(n, p, between, frame, env).0.batches == n.batches
  {}

  /** A packet is lost in building exactly if it was too long for a frame of its own. */
  lemma LongPacketLost(n: Net, p: packet, frame: seq<byte>, env: TxRing.Env)
    requires TxRing.ModemEnv(env) && Inv(n) && n.queue == []
    ensures var t := Flushed(Queued(n, p), frame, env);
      && |t.batches| == |n.batches| + 1
      && t.batches[|n.batches|].packets == [p]
      && (t.batches[|n.batches|].fate == BuildFailed <==> |p| + 56 > n.MaxSize())
  {
    BodySnoc([], p);
    assert [] + [p] == [p];
    BuildsIff([p], n.MaxSize());
    assert [p][..1] == [p];
    var m := Queued(n, p);
    assert m.queue == [p];
    assert Takes([p], n.MaxSize(), 0) <==> |p| + 56 <= n.MaxSize();
  }

  lemma RunTwo(n: Net, a: Act, m: Net, b: Act, t: Net, rest: seq<Act>)
    requires Inv(n) && Allowed(n, a) && m == Next(n, a) && Inv(m) && Allowed(m, b) && t == Next(m, b)
    requires Inv(t) && AllAllowed(t, rest)
    ensures AllAllowed(n, [a] + ([b] + rest)) && Run(n, [a] + ([b] + rest)) == Run(t, rest)
  {
    RunFirst(m, [b] + rest, b, rest);
    RunFirst(n, [a] + ([b] + rest), a, [b] + rest);
  }

  // Ready to queue a packet, without an error.
  ghost predicate Fresh(n: Net) {
    Inv(n) && n.ring.error == 0 && !n.stopped && n.queue == [] && n.packets == n.bytes == 0
  }

  function Room(ring: TxRing.Tx): int {
    ring.ring.depth - 1 - (|ring.accepted| - |ring.taken|)
  }

  // The packet goes into the queue, ...
  lemma QueueAlone(n: Net, p: packet)
    requires Fresh(n) && |p| + 56 <= n.MaxSize()
    ensures var m := Next(n, Xmit(p, [], [], [])); Allowed(n, Xmit(p, [], [], [])) && m == Queued(n, p) && Inv(m)
  {
    QueuedKeepsInv(n, p);
  }

  // ... and the deadline comes.
  lemma FlushAlone(m: Net, p: packet) returns (frame: seq<byte>)
    requires Inv(m) && m.ring.error == 0 && m.queue == [p]
    ensures Allowed(m, Deadline(frame, []))
    ensures var t := Flushed(m, frame, []);
      && Inv(t) && t.ring.error == 0 && t.stopped == m.stopped && t.queue == [] && t.packets == t.bytes == 0
      && t.MaxSize() == m.MaxSize() && t.ring.ring.depth == m.ring.ring.depth
      && t.batches == m.batches + [Batch(m.sequence + 1, [p], if m.ring.CanWrite() then Shipped else RingFull, frame)]
      && t.ring.taken == m.ring.taken
      && t.ring.accepted == m.ring.accepted + (if m.ring.CanWrite() then [frame] else [])
  {
    frame := FrameExists(m.sequence + 1, m.channel, m.queue);
    FlushKeepsInv(m, frame, []);
    FlushShips(m, frame, []);
    FlushQuiet(m, frame);
  }

  lemma FlushQuiet(m: Net, frame: seq<byte>)
    requires Inv(m) && m.queue != [] && FrameFor(m, frame)
    ensures var t := Flushed(m, frame, []);
      t.ring.error == m.ring.error && t.ring.ring.depth == m.ring.ring.depth && t.ring.taken == m.ring.taken
  {
    FlushBatch(m, frame, []);
    TxRing.WriteOutcome(m.ring, frame, []);
    TxRing.NextTyped(m.ring, TxRing.Write(frame));
    TxRing.AmidQuiet(TxRing.Next(m.ring, TxRing.Write(frame)));
  }

  ghost predicate Discards(t: Net, p: packet) {
    |t.batches| > 0 && t.batches[|t.batches| - 1].packets == [p] && t.batches[|t.batches| - 1].fate == RingFull
  }

  lemma {:induction false} FillsUp(n: Net, p: packet) returns (acts: seq<Act>)
    requires Fresh(n) && |p| + 56 <= n.MaxSize()
    ensures AllAllowed(n, acts) && Discards(Run(n, acts), p)
    decreases Room(n.ring)
  {
    QueueAlone(n, p);
    var m := Queued(n, p);
    assert m.queue == [p];
    var frame := FlushAlone(m, p);
    var a, b, t := Xmit(p, [], [], []), Deadline(frame, []), Flushed(m, frame, []);
    if n.ring.CanWrite() {
      acts := FillsUp(t, p);
    } else {
      acts := [];
      assert Run(t, []) == t;
    }
    RunTwo(n, a, m, b, t, acts);
    acts := [a] + ([b] + acts);
  }

  /** Such a deadline does happen: after every opening without error, any packet can end up in a discarded frame. */
  lemma DeadlineDiscards(n: Net, control: seq<byte>, p: packet)
    requires RingReady(n.ring) && n.ring.error == 0 && |p| + 56 <= n.MaxSize()
    ensures var start := Opened(n, control, []);
      Inv(start) && exists acts :: AllAllowed(start, acts) && Discards(Run(start, acts), p)
  {
    OpenedInv(n, control, []);
    TxRing.WriteOutcome(n.ring, control, []);
    var acts := FillsUp(Opened(n, control, []), p);
  }
}
