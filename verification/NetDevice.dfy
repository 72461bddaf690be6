/** The network device itself: its methods carry out the steps of NetUplink on a real frame buffer. */
module NetDevice {
  import opened Bytes
  import opened MuxChain
  import opened MuxFrame
  import opened NetUplink
  import opened Cyclic
  import opened RingMemory
  import opened QueuePairs
  import TxRing

  // What the kernel, the timer and the modem do to an open device.
  datatype Call =
    | XmitCall(p: packet, between: seq<TxRing.Act>, env: TxRing.Env)
    | DeadlineCall(env: TxRing.Env)
    | WakeCall
    | ModemCall(acts: seq<TxRing.Act>)
    | FailCall(error: int)

  ghost predicate Permitted(c: Call, maxSize: nat) {
    match c
    case XmitCall(p, between, env) => |p| + 56 <= maxSize && TxRing.DeviceOnly(between) && TxRing.ModemEnv(env)
    case DeadlineCall(env) => TxRing.ModemEnv(env)
    case WakeCall => true
    case ModemCall(acts) => TxRing.DeviceOnly(acts)
    case FailCall(error) => error <= 0
  }

  // The packets of the xmits among these calls that answered true.
  function Answered(calls: seq<Call>, oks: seq<bool>): seq<packet>
    requires |calls| == |oks|
  {
    if calls == [] then []
    else
      var n := |calls| - 1;
      Answered(calls[..n], oks[..n]) + if calls[n].XmitCall? && oks[n] then [calls[n].p] else []
  }

  // What was accepted since start are the packets of these calls' xmits that answered true.
  ghost predicate Tally(start: seq<packet>, calls: seq<Call>, oks: seq<bool>, accepted: seq<packet>) {
    |oks| == |calls| && accepted == start + Answered(calls, oks)
  }

  lemma AnsweredSnoc(calls: seq<Call>, oks: seq<bool>, c: Call, ok: bool)
    requires |calls| == |oks|
    ensures Answered(calls + [c], oks + [ok]) == Answered(calls, oks) + if c.XmitCall? && ok then [c.p] else []
  {
    assert (calls + [c])[..|calls|] == calls && (oks + [ok])[..|oks|] == oks;
  }

  class XmmNet {
    const channel: nat
    const frame: FrameBuilder
    const qp: QueuePair
    var error: int
    var queue: seq<packet>
    var queuedPackets: int
    var queuedBytes: int
    var sequence: nat
    var stopped: bool
    ghost var accepted: seq<packet>
    ghost var batches: seq<Batch>
    ghost var before: seq<seq<byte>>
    ghost var first: nat

    ghost function View(): Net
      reads this, qp, qp.tx, qp.tx.tds, qp.tx.pages
    {
      Net(qp.TxView(error), channel, queue, queuedPackets, queuedBytes, sequence, stopped,
          accepted, batches, before, first)
    }

    // What holds from creation on.
    ghost predicate Ready()
      reads this, frame, qp, qp.tx, qp.tx.tds, qp.tx.pages
    {
      && qp.TxReady(error) && qp.txPc == TxRing.Idle && error <= 0
      && frame.Sized() && frame.maxPackets == MUX_MAX_PACKETS && !frame.wide
      && 56 <= qp.tx.pageSize <= frame.data.Length && qp.tx.pageSize < 0x1_0000
    }

    // What holds once the device was opened: the frame knows its maximum size.
    ghost predicate Valid()
      reads this, frame, qp, qp.tx, qp.tx.tds, qp.tx.pages
    {
      Ready() && frame.maxSize == qp.tx.pageSize
    }

    constructor (channel: nat, qp: QueuePair)
      requires qp.TxReady(0) && qp.txPc == TxRing.Idle && 56 <= qp.tx.pageSize <= TD_MAX_PAGE_SIZE
      ensures Ready() && this.channel == channel && this.qp == qp && error == 0 && queue == [] && fresh(frame)
      ensures fresh(frame.data) && fresh(frame.bounds)
    {
      this.channel, this.qp, error := channel, qp, 0;
      queue, queuedPackets, queuedBytes, sequence, stopped := [], 0, 0, 0, false;
      frame := new FrameBuilder(MUX_MAX_PACKETS, false, TD_MAX_PAGE_SIZE);
      accepted, batches, before, first := [], [], [], 0;
    }

    method ModemTakes(acts: seq<TxRing.Act>)
      requires Valid() && TxRing.DeviceOnly(acts)
      modifies qp`taken, qp`fetched, qp.tx`rptr
      ensures Valid() && View() == Later(old(View()), acts)
    {
      TxRing.DeviceRun(qp.TxView(error), acts);
      qp.ModemTakes(acts, error);
    }

    method BuildControl() returns (control: seq<byte>)
      requires Ready()
      modifies frame, frame.data
      ensures Valid() && ControlFrame(control, sequence, channel)
    {
      frame.Init(qp.tx.pageSize, sequence);
      frame.AddControl(channel);
      control := frame.Complete();
    }

    /** net_open with its control message, which is where the frame learns its maximum size. */
    method Open(env: TxRing.Env) returns (ret: int, control: seq<byte>)
      requires Ready() && TxRing.ModemEnv(env)
      modifies this`queuedPackets, this`queuedBytes, this`queue, this`stopped
      modifies this`accepted, this`batches, this`before, this`first
      modifies frame, frame.data, qp`txPc, qp`ret, qp`accepted, qp`taken, qp`fetched
      modifies qp.tx`rptr, qp.tx`wptr, qp.tx.tds, qp.tx.pages
      ensures Valid() && View() == Opened(old(View()), control, env) && ControlFrame(control, sequence, channel)
      ensures queue == [] && queuedPackets == queuedBytes == 0 && !stopped && sequence == old(sequence)
      ensures accepted == [] && batches == [] && before == qp.accepted && ret == if error < 0 then error else 0
      ensures qp.accepted == old(qp.accepted)
        + if error == 0 && old(Distance(qp.tx.rptr, qp.tx.wptr, qp.tx.depth) < qp.tx.depth - 1) then [control] else []
    {
      ghost var n := View();
      FullIs(qp.tx.Mem());
      ret, control := OpenUp(n, env);
      ControlSize(control, sequence, channel);
      OpenedMeans(n, control, env);
      if ret >= 0 {
        ret := 0;
      }
    }

    method OpenUp(ghost n: Net, env: TxRing.Env) returns (ret: int, control: seq<byte>)
      requires Ready() && TxRing.ModemEnv(env) && n == View()
      modifies this`queuedPackets, this`queuedBytes, this`queue, this`stopped
      modifies this`accepted, this`batches, this`before, this`first
      modifies frame, frame.data, qp`txPc, qp`ret, qp`accepted, qp`taken, qp`fetched
      modifies qp.tx`rptr, qp.tx`wptr, qp.tx.tds, qp.tx.pages
      ensures Valid() && View() == Opened(n, control, env) && ControlFrame(control, sequence, channel) && ret == qp.ret
    {
      Purge();
      control := BuildControl();
      ret := WriteControl(n, control, env);
    }

    method Purge()
      requires Ready()
      modifies this`queuedPackets, this`queuedBytes, this`queue, this`stopped
      ensures Ready() && View() == old(View()).(queue := [], packets := 0, bytes := 0, stopped := false)
    {
      queuedPackets, queuedBytes := 0, 0;
      queue := [];
      stopped := false;
    }

    // The histories start over with the state in which the control message leaves the ring.
    method WriteControl(ghost n: Net, control: seq<byte>, env: TxRing.Env) returns (ret: int)
      requires Valid() && TxRing.ModemEnv(env)
      requires View() == n.(queue := [], packets := 0, bytes := 0, stopped := false)
      modifies this`accepted, this`batches, this`before, this`first, qp`txPc, qp`ret, qp`accepted, qp`taken, qp`fetched
      modifies qp.tx`rptr, qp.tx`wptr, qp.tx.tds, qp.tx.pages
      ensures Valid() && View() == Opened(n, control, env) && ret == qp.ret
    {
      TxRing.WriteOutcome(qp.TxView(error), control, env);
      ret := qp.WriteTx(control, error, env);
      accepted, batches, before, first := [], [], qp.accepted, sequence;
      OpenedIs(n, View(), control, env);
    }

    // One turn of it.
    method LoadOne(ghost q: seq<packet>, ghost i: nat) returns (ok: bool)
      requires Valid() && i < |q| && queue == q[i..] && frame.Carries(q[..i])
      modifies this`queue, frame`nPackets, frame`nBytes, frame`tags, frame`head, frame.data, frame.bounds
      ensures Valid() && queue == q[i + 1..] && (ok <==> Takes(q, qp.tx.pageSize, i))
      ensures ok ==> frame.Carries(q[..i + 1])
    {
      assert q[..i + 1] == q[..i] + [q[i]];
      var p := queue[0];
      queue := queue[1..];
      ok := frame.AppendPacket(p, q[..i]);
    }

    // The dequeueing loop of net_flush: what is not taken stays queued, except the packet that was refused.
    method Load() returns (ok: bool)
      requires Valid() && frame.Carries([])
      modifies this`queue, frame`nPackets, frame`nBytes, frame`tags, frame`head, frame.data, frame.bounds
      ensures Valid()
      ensures var k := Loaded(old(queue), qp.tx.pageSize, 0);
        && (ok <==> k == |old(queue)|)
        && if ok then queue == [] && frame.Carries(old(queue)) else queue == old(queue)[k + 1..]
    {
      ghost var q, i := queue, 0;
      assert q[..0] == [] && q[0..] == q;
      while queue != []
        invariant Valid() && 0 <= i <= |q| && queue == q[i..] && frame.Carries(q[..i])
        invariant Loaded(q, qp.tx.pageSize, 0) == Loaded(q, qp.tx.pageSize, i)
        decreases |queue|
      {
        ok := LoadOne(q, i);
        if !ok {
          return;
        }
        i := i + 1;
      }
      assert q[..i] == q;
      ok := true;
    }

    // add_tag and append_data for the ADTH section, then the total length: the frame as it is pushed.
    method Close(ghost q: seq<packet>) returns (ok: bool, bytes: seq<byte>)
      requires frame.Carries(q)
      modifies frame`nBytes, frame`lastTagLength, frame`lastTagNext, frame`tags, frame`offs, frame`head, frame.data
      ensures frame.Sized() && (ok <==> FrameSize(q) <= frame.maxSize)
      ensures if ok then NetFrame(bytes, frame.sequence, channel, q) else bytes == []
    {
      bytes := [];
      ok := frame.AppendAdth(channel, q);
      if ok {
        bytes := frame.Complete();
      }
    }

    method Begin()
      requires Valid()
      modifies frame, frame.data
      ensures Valid() && frame.Carries([]) && frame.sequence == sequence
    {
      frame.Init(qp.tx.pageSize, sequence);
      var ok := frame.Begin();
    }

    // net_flush from the emptying of the queue to the finished frame, which has been begun.
    method Build() returns (built: bool, bytes: seq<byte>)
      requires Valid() && frame.Carries([]) && frame.sequence == sequence
      modifies this`queue, frame, frame.data, frame.bounds
      ensures Valid() && (built <==> Builds(old(queue), qp.tx.pageSize))
      ensures built ==> queue == [] && NetFrame(bytes, sequence, channel, old(queue))
      ensures !built ==> var k := Loaded(old(queue), qp.tx.pageSize, 0);
        bytes == [] && queue == if k < |old(queue)| then old(queue)[k + 1..] else []
    {
      ghost var q := queue;
      built := Load();
      bytes := [];
      if built {
        built, bytes := Close(q);
      }
    }

    // mux_frame_push and what net_flush makes of its result.
    method Push(bytes: seq<byte>, ghost q: seq<packet>, env: TxRing.Env)
      requires Valid() && TxRing.ModemEnv(env)
      modifies this`queuedPackets, this`queuedBytes, this`batches
      modifies qp`txPc, qp`ret, qp`accepted, qp`taken, qp`fetched, qp.tx`rptr, qp.tx`wptr, qp.tx.tds, qp.tx.pages
      ensures Valid() && qp.TxView(error) == TxRing.Returned(old(qp.TxView(error)), bytes, env)
      ensures if qp.ret < 0 then unchanged(`queuedPackets, `queuedBytes) else queuedPackets == queuedBytes == 0
      ensures batches == old(batches) + [Batch(sequence, q,
        if qp.ret < 0 then DeviceError else if old(qp.TxView(error).CanWrite()) then Shipped else RingFull, bytes)]
    {
      ghost var room := qp.TxView(error).CanWrite();
      TxRing.WriteOutcome(qp.TxView(error), bytes, env);
      var ret := qp.WriteTx(bytes, error, env);
      batches := batches + [Batch(sequence, q, if ret < 0 then DeviceError
                                            else if room then Shipped else RingFull, bytes)];
      if ret >= 0 {
        queuedPackets, queuedBytes := 0, 0;
      }
    }

    // The body of net_flush once the sequence number has been taken.
    method BuildAndPush(ghost n: Net, env: TxRing.Env) returns (bytes: seq<byte>)
      requires Valid() && queue != [] && View() == n.(sequence := n.sequence + 1) && TxRing.ModemEnv(env)
      modifies this`queue, this`queuedPackets, this`queuedBytes, this`batches, frame, frame.data, frame.bounds
      modifies qp`txPc, qp`ret, qp`accepted, qp`taken, qp`fetched, qp.tx`rptr, qp.tx`wptr, qp.tx.tds, qp.tx.pages
      ensures Valid() && View() == Flushed(n, bytes, env) && FrameFor(n, bytes)
    {
      var built;
      Begin();
      built, bytes := Build();
      if built {
        Ship(n, bytes, env);
      } else {
        Drop(n, bytes, env, Loaded(n.queue, n.MaxSize(), 0));
      }
    }

    method Ship(ghost n: Net, bytes: seq<byte>, env: TxRing.Env)
      requires Valid() && TxRing.ModemEnv(env) && n.queue != [] && Builds(n.queue, n.MaxSize())
      requires View() == n.(sequence := n.sequence + 1, queue := [])
      modifies this`queuedPackets, this`queuedBytes, this`batches
      modifies qp`txPc, qp`ret, qp`accepted, qp`taken, qp`fetched, qp.tx`rptr, qp.tx`wptr, qp.tx.tds, qp.tx.pages
      ensures Valid() && View() == Flushed(n, bytes, env)
    {
      Push(bytes, n.queue, env);
      PushedIsFlushed(n, View(), bytes, env, qp.TxView(error));
    }

    // The packets up to the refused one are gone, and counted still.
    ghost method Drop(n: Net, bytes: seq<byte>, env: TxRing.Env, k: nat)
      requires Valid() && TxRing.ModemEnv(env) && n.queue != [] && !Builds(n.queue, n.MaxSize())
      requires k == Loaded(n.queue, n.MaxSize(), 0)
      requires View() == n.(sequence := n.sequence + 1, queue := if k < |n.queue| then n.queue[k + 1..] else [])
      modifies this`batches
      ensures Valid() && View() == Flushed(n, bytes, env)
    {
      batches := batches + [Batch(sequence, if k < |n.queue| then n.queue[..k + 1] else n.queue, BuildFailed, [])];
      DroppedIsFlushed(n, View(), bytes, env, k);
    }

    /** net_flush, which is all that net_deadline_cb does. */
    method Flush(env: TxRing.Env) returns (bytes: seq<byte>)
      requires Valid() && TxRing.ModemEnv(env)
      modifies this`sequence, this`queue, this`queuedPackets, this`queuedBytes, this`batches
      modifies frame, frame.data, frame.bounds
      modifies qp`txPc, qp`ret, qp`accepted, qp`taken, qp`fetched, qp.tx`rptr, qp.tx`wptr, qp.tx.tds, qp.tx.pages
      ensures Valid() && View() == Flushed(old(View()), bytes, env) && FrameFor(old(View()), bytes)
      ensures old(queue) == [] ==> View() == old(View())
      ensures old(NetUplink.Inv(View())) && old(queue) != [] ==> Ships(old(View()), View(), bytes)
    {
      bytes := [];
      if queue != [] {
        ghost var n := View();
        sequence := sequence + 1;
        bytes := BuildAndPush(n, env);
        if NetUplink.Inv(n) {
          FlushShips(n, bytes, env);
        }
      }
    }

    method MustFlush(len: nat) returns (must: bool)
      requires Valid()
      ensures must == View().MustFlush(len)
    {
      if queuedPackets >= MUX_MAX_PACKETS {
        return true;
      }
      var size := 16 + queuedBytes + 12 + 4 + 8 * queuedPackets;
      size := size + 16 + len + 8;
      must := size > frame.maxSize;
    }

    method Enqueue(p: packet)
      modifies this`queue, this`queuedPackets, this`queuedBytes, this`accepted
      ensures View() == Queued(old(View()), p) && accepted == old(accepted) + [p]
    {
      queuedPackets := queuedPackets + 1;
      queuedBytes := queuedBytes + 16 + |p|;
      queue := queue + [p];
      accepted := accepted + [p];
    }

    // Making room in the queue.
    method FlushLater(between: seq<TxRing.Act>, env: TxRing.Env) returns (ghost bytes: seq<byte>)
      requires Valid() && TxRing.DeviceOnly(between) && TxRing.ModemEnv(env)
      modifies this`sequence, this`queue, this`queuedPackets, this`queuedBytes, this`batches
      modifies frame, frame.data, frame.bounds
      modifies qp`txPc, qp`ret, qp`accepted, qp`taken, qp`fetched, qp.tx`rptr, qp.tx`wptr, qp.tx.tds, qp.tx.pages
      ensures Valid() && View() == Flushed(Later(old(View()), between), bytes, env)
      ensures FrameFor(old(View()), bytes)
    {
      ghost var n := View();
      ModemTakes(between);
      bytes := Flush(env);
      LaterFrame(n, between, bytes);
    }

    /** net_xmit; the modem runs between the check for room and the flush, and during its write. It answers true exactly
        if the device was not stopped and the packet fits into the frame to be or the ring has room. Then the packet is
        the last one accepted and the last in the queue; where it did not fit, the earlier queue has become a batch. */
    method Xmit(p: packet, between: seq<TxRing.Act>, env: TxRing.Env) returns (ok: bool, ghost bytes: seq<byte>)
      requires Valid() && TxRing.DeviceOnly(between) && TxRing.ModemEnv(env)
      modifies this`sequence, this`queue, this`queuedPackets, this`queuedBytes, this`batches
      modifies this`stopped, this`accepted
      modifies frame, frame.data, frame.bounds
      modifies qp`txPc, qp`ret, qp`accepted, qp`taken, qp`fetched, qp.tx`rptr, qp.tx`wptr, qp.tx.tds, qp.tx.pages
      ensures Valid() && (View(), ok) == Sent(old(View()), p, between, bytes, env)
      ensures Flushes(old(View()), |p|) ==> FrameFor(old(View()), bytes)
      ensures var fits := old(queuedPackets) < 64
          && 16 + old(queuedBytes) + 16 + 8 * old(queuedPackets) + 16 + |p| + 8 <= qp.tx.pageSize;
        && (ok <==> !old(stopped) && (fits || old(Distance(qp.tx.rptr, qp.tx.wptr, qp.tx.depth) < qp.tx.depth - 1)))
        && (ok && fits ==> queue == old(queue) + [p] && batches == old(batches) && qp.accepted == old(qp.accepted)
                           && queuedPackets == old(queuedPackets) + 1 && queuedBytes == old(queuedBytes) + 16 + |p|)
        && (ok && !fits && old(NetUplink.Inv(View())) ==> queue == [p] && Batched(old(batches), batches, old(queue)))
      ensures ok ==> accepted == old(accepted) + [p] && queue != [] && queue[|queue| - 1] == p && !stopped
      ensures !ok ==> accepted == old(accepted) && queue == old(queue) && batches == old(batches) && stopped
    {
      ghost var n := View();
      FullIs(qp.tx.Mem());
      ok, bytes := SendOut(p, between, env);
      SentAnswers(n, p, between, bytes, env);
      if NetUplink.Inv(n) && Flushes(n, |p|) {
        SentFlushes(n, p, between, bytes, env);
      }
    }

    method SendOut(p: packet, between: seq<TxRing.Act>, env: TxRing.Env) returns (ok: bool, ghost bytes: seq<byte>)
      requires Valid() && TxRing.DeviceOnly(between) && TxRing.ModemEnv(env)
      modifies this`sequence, this`queue, this`queuedPackets, this`queuedBytes, this`batches
      modifies this`stopped, this`accepted
      modifies frame, frame.data, frame.bounds
      modifies qp`txPc, qp`ret, qp`accepted, qp`taken, qp`fetched, qp.tx`rptr, qp.tx`wptr, qp.tx.tds, qp.tx.pages
      ensures Valid() && (View(), ok) == Sent(old(View()), p, between, bytes, env)
      ensures Flushes(old(View()), |p|) ==> FrameFor(old(View()), bytes)
      ensures accepted == old(accepted) + if ok then [p] else []
    {
      bytes := [];
      ok := false;
      if stopped {
        return;
      }
      var must := MustFlush(|p|);
      if must {
        var room := qp.CanWrite();
        if !room {
          stopped := true;
          return;
        }
        bytes := FlushAndQueue(p, between, env);
      } else {
        Enqueue(p);
      }
      ok := true;
    }

    method FlushAndQueue(p: packet, between: seq<TxRing.Act>, env: TxRing.Env) returns (ghost bytes: seq<byte>)
      requires Valid() && TxRing.DeviceOnly(between) && TxRing.ModemEnv(env)
      modifies this`sequence, this`queue, this`queuedPackets, this`queuedBytes, this`batches, this`accepted
      modifies frame, frame.data, frame.bounds
      modifies qp`txPc, qp`ret, qp`accepted, qp`taken, qp`fetched, qp.tx`rptr, qp.tx`wptr, qp.tx.tds, qp.tx.pages
      ensures Valid() && View() == Queued(Flushed(Later(old(View()), between), bytes, env), p)
      ensures FrameFor(old(View()), bytes) && accepted == old(accepted) + [p]
    {
      bytes := FlushLater(between, env);
      Enqueue(p);
    }

    // The beginning of net_poll: the queue runs again exactly if the ring has room.
    method Wake()
      requires Valid()
      modifies this`stopped
      ensures Valid() && View() == Next(old(View()), NetUplink.Wake)
      ensures stopped <==> old(stopped) && Distance(qp.tx.rptr, qp.tx.wptr, qp.tx.depth) == qp.tx.depth - 1
    {
      FullIs(qp.tx.Mem());
      var room := qp.CanWrite();
      if room {
        stopped := false;
      }
    }

    // Elsewhere in the driver, xmm->error changes.
    method Fail(error: int)
      requires Valid() && error <= 0
      modifies this`error
      ensures Valid() && View() == Next(old(View()), NetUplink.Fail(error))
    {
      TxRing.NextKeepsInv(qp.TxView(this.error), TxRing.Fail(error));
      this.error := error;
    }

    // One call, and the step of the machine that it is.
    method Do(c: Call) returns (ok: bool, ghost a: Act)
      requires Valid() && Permitted(c, qp.tx.pageSize)
      modifies this`sequence, this`queue, this`queuedPackets, this`queuedBytes, this`batches
      modifies this`stopped, this`accepted
      modifies this`error, frame, frame.data, frame.bounds
      modifies qp`txPc, qp`ret, qp`accepted, qp`taken, qp`fetched, qp.tx`rptr, qp.tx`wptr, qp.tx.tds, qp.tx.pages
      ensures Valid() && Allowed(old(View()), a) && View() == Next(old(View()), a)
      ensures accepted == old(accepted) + if c.XmitCall? && ok then [c.p] else []
    {
      ok := true;
      match c
      case XmitCall(p, between, env) =>
        ghost var bytes;
        ok, bytes := SendOut(p, between, env);
        a := NetUplink.Xmit(p, between, bytes, env);
      case DeadlineCall(env) =>
        var bytes := Flush(env);
        a := NetUplink.Deadline(bytes, env);
      case WakeCall =>
        Wake();
        a := NetUplink.Wake;
      case ModemCall(acts) =>
        ModemTakes(acts);
        a := NetUplink.Modem(acts);
      case FailCall(error) =>
        Fail(error);
        a := NetUplink.Fail(error);
    }

    /** From opening on, whatever calls the device gets. */
    method Session(env: TxRing.Env, calls: seq<Call>) returns (oks: seq<bool>)
      requires Ready() && qp.tx.pageSize % 4 == 0 && qp.tx.pageSize <= TD_MAX_PAGE_SIZE && TxRing.ModemEnv(env)
      requires forall c :: c in calls ==> Permitted(c, qp.tx.pageSize)
      modifies this, frame, frame.data, frame.bounds, qp`txPc, qp`ret, qp`accepted, qp`taken, qp`fetched
      modifies qp.tx`rptr, qp.tx`wptr, qp.tx.tds, qp.tx.pages
      ensures Valid() && NetUplink.Inv(View()) && Conserved(View())
      ensures Tally([], calls, oks, accepted)
    {
      Start(env);
      ghost var acts;
      oks, acts := Perform(calls);
    }

    method Start(env: TxRing.Env)
      requires Ready() && qp.tx.pageSize % 4 == 0 && qp.tx.pageSize <= TD_MAX_PAGE_SIZE && TxRing.ModemEnv(env)
      modifies this`queuedPackets, this`queuedBytes, this`queue, this`stopped
      modifies this`accepted, this`batches, this`before, this`first
      modifies frame, frame.data, qp`txPc, qp`ret, qp`accepted, qp`taken, qp`fetched
      modifies qp.tx`rptr, qp.tx`wptr, qp.tx.tds, qp.tx.pages
      ensures Valid() && NetUplink.Inv(View()) && accepted == []
    {
      ghost var n := View();
      var ret, control := Open(env);
      OpenedInv(n, control, env);
    }

    method DoNext(c: Call, ghost n: Net, ghost done: seq<Act>, ghost calls: seq<Call>, before: seq<bool>)
      returns (oks: seq<bool>, ghost acts: seq<Act>)
      requires Valid() && Permitted(c, qp.tx.pageSize) && Progress(n, calls, before, done, View())
      modifies this`sequence, this`queue, this`queuedPackets, this`queuedBytes, this`batches
      modifies this`stopped, this`accepted
      modifies this`error, frame, frame.data, frame.bounds
      modifies qp`txPc, qp`ret, qp`accepted, qp`taken, qp`fetched, qp.tx`rptr, qp.tx`wptr, qp.tx.tds, qp.tx.pages
      ensures Valid() && Progress(n, calls + [c], oks, acts, View())
    {
      ghost var a;
      ghost var t := View();
      var ok;
      ok, a := Do(c);
      oks, acts := before + [ok], done + [a];
      ProgressSnoc(n, calls, before, done, t, c, ok, a, View());
    }

    /** Whatever calls an open device gets, it makes a run of the machine, and so loses nothing without a trace: what it
        conserves are the packets of the xmits that answered true, in order. */
    method Perform(calls: seq<Call>) returns (oks: seq<bool>, ghost acts: seq<Act>)
      requires Valid() && NetUplink.Inv(View()) && forall c :: c in calls ==> Permitted(c, qp.tx.pageSize)
      modifies this`sequence, this`queue, this`queuedPackets, this`queuedBytes, this`batches
      modifies this`stopped, this`accepted
      modifies this`error, frame, frame.data, frame.bounds
      modifies qp`txPc, qp`ret, qp`accepted, qp`taken, qp`fetched, qp.tx`rptr, qp.tx`wptr, qp.tx.tds, qp.tx.pages
      ensures Valid() && Reached(old(View()), acts, View())
      ensures NetUplink.Inv(View()) && Conserved(View())
      ensures Tally(old(accepted), calls, oks, accepted)
    {
      oks, acts := [], [];
      ghost var n := View();
      ProgressStart(n);
      for i := 0 to |calls|
        invariant Valid() && Progress(n, calls[..i], oks, acts, View())
      {
        oks, acts := DoNext(calls[i], n, acts, calls[..i], oks);
        UpToNext(calls, i);
      }
      UpToAll(calls);
      ReachedConserves(n, acts, View());
    }
  }

  // These calls have been answered so, and were these acts.
  ghost predicate Progress(n: Net, calls: seq<Call>, oks: seq<bool>, acts: seq<Act>, t: Net) {
    Reached(n, acts, t) && Tally(n.accepted, calls, oks, t.accepted)
  }

  lemma ProgressStart(n: Net)
    requires NetUplink.Inv(n)
    ensures Progress(n, [], [], [], n)
  {
    ReachedStart(n);
  }

  lemma ProgressSnoc(n: Net, calls: seq<Call>, oks: seq<bool>, acts: seq<Act>, t: Net,
                     c: Call, ok: bool, a: Act, u: Net)
    requires Progress(n, calls, oks, acts, t) && t.ring.Typed() && Allowed(t, a) && u == Next(t, a)
    requires u.accepted == t.accepted + if c.XmitCall? && ok then [c.p] else []
    ensures Progress(n, calls + [c], oks + [ok], acts + [a], u)
  {
    RunKeepsInv(n, acts);
    RunSnoc(n, acts, a);
    AnsweredSnoc(calls, oks, c, ok);
  }

  lemma UpToNext(calls: seq<Call>, i: nat)
    requires i < |calls|
    ensures calls[..i] + [calls[i]] == calls[..i + 1]
  {}

  lemma UpToAll(calls: seq<Call>)
    ensures calls[..|calls|] == calls
  {}
}
