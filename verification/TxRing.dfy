/** The host-to-device half of a queue pair: every interleaving of a single writer with the modem. */
module TxRing {
  import opened Bytes
  import opened Cyclic
  import opened RingMemory

  // Where qp_write is between two accesses to shared memory. Bug is a BUG_ON.
  datatype Pc =
    | Idle
    | Filling(buf: seq<byte>, done: nat)
    | Describing(buf: seq<byte>)
    | Checking(buf: seq<byte>)
    | Publishing(buf: seq<byte>)
    | Bug

  // accepted and taken are histories; fetched is what the modem has read of its next buffer;
  // ret is what the last finished qp_write returned.
  datatype Tx = Tx(ring: Ring, error: int, pc: Pc, ret: int,
                   accepted: seq<seq<byte>>, taken: seq<seq<byte>>, fetched: seq<byte>) {

    ghost predicate Typed() {
      && ring.WellFormed()
      && (pc != Idle && pc != Bug ==> |pc.buf| <= ring.pageSize)
    }

    predicate CanWrite()
      requires ring.depth > 0
    {
      !ring.Full()
    }
  }

  datatype Act =
    | Write(buf: seq<byte>)
    | Host
    | Fetch
    | Finish
    | Fail(error: int)

  predicate DeviceAct(a: Act) {
    a.Fetch? || a.Finish?
  }

  ghost predicate DeviceOnly(acts: seq<Act>) {
    forall a :: a in acts ==> DeviceAct(a)
  }

  // A buffer longer than a page is cut.
  function Cut(buf: seq<byte>, pageSize: nat): (r: seq<byte>)
    ensures |r| <= pageSize
  {
    if |buf| > pageSize then buf[..pageSize] else buf
  }

  // One access to shared memory, except that the stores into a descriptor are one step: the modem does not own that
  // descriptor, so it sees it only once it is published.
  function HostStep(s: Tx): Tx
    requires s.Typed()
  {
    match s.pc
    case Idle => s
    case Filling(buf, done) =>
      if done < |buf| then s.(ring := s.ring.PutByte(s.ring.wptr, done, buf[done]), pc := Filling(buf, done + 1))
      else s.(pc := Describing(buf))
    case Describing(buf) => s.(ring := s.ring.PutTd(s.ring.wptr, Td(|buf|, 0)), pc := Checking(buf))
    case Checking(buf) => s.(pc := if s.ring.Full() then Bug else Publishing(buf))
    case Publishing(buf) =>
      s.(ring := s.ring.Publish(), accepted := s.accepted + [buf], ret := |buf|, pc := Idle)
    case Bug => s
  }

  function Next(s: Tx, a: Act): Tx
    requires s.Typed()
  {
    match a
    case Write(buf) =>
      if s.pc != Idle then s
      else if s.error != 0 then s.(ret := s.error)
      else if !s.CanWrite() then s.(ret := 0)
      else s.(pc := Filling(Cut(buf, s.ring.pageSize), 0))
    case Host => HostStep(s)
    case Fetch =>
      if s.ring.rptr != s.ring.wptr && |s.fetched| < s.ring.tds[s.ring.rptr].length && |s.fetched| < s.ring.pageSize
      then s.(fetched := s.fetched + [s.ring.pages[s.ring.rptr][|s.fetched|]]) else s
    case Finish =>
      if s.ring.rptr != s.ring.wptr && |s.fetched| == s.ring.tds[s.ring.rptr].length
      then s.(ring := s.ring.Take(), taken := s.taken + [s.fetched], fetched := []) else s
    case Fail(error) => s.(error := error)
  }

  lemma NextTyped(s: Tx, a: Act)
    requires s.Typed()
    ensures Next(s, a).Typed()
  {}

  ghost function Run(s: Tx, acts: seq<Act>): Tx
    requires s.Typed()
    decreases |acts|
  {
    if acts == [] then s
    else
      NextTyped(s, acts[0]);
      Run(Next(s, acts[0]), acts[1..])
  }

  ghost predicate Opened(s: Tx) {
    && s.Typed()
    && s.pc == Idle && s.ring.rptr == 0 && s.ring.wptr == 0
    && s.accepted == [] && s.taken == [] && s.fetched == []
  }

  ghost predicate Indices(s: Tx) {
    && s.Typed()
    && s.pc != Bug
    && |s.taken| <= |s.accepted| < |s.taken| + s.ring.depth - (if s.pc == Idle then 0 else 1)
    && s.ring.rptr == Slot(|s.taken|, s.ring.depth)
    && s.ring.wptr == Slot(|s.accepted|, s.ring.depth)
  }

  ghost predicate Inv(s: Tx) {
    && Indices(s)
    && s.taken <= s.accepted
    && Keeps(s.ring, s.accepted, |s.taken|, |s.accepted|)
    && (if s.taken == s.accepted then s.fetched == [] else s.fetched <= s.accepted[|s.taken|])
    && var page := s.ring.pages[s.ring.wptr];
       match s.pc {
         case Filling(buf, done) => done <= |buf| && page[..done] == buf[..done]
         case Describing(buf) => page[..|buf|] == buf
         case Checking(buf) => s.ring.Holds(s.ring.wptr, buf) && s.ring.tds[s.ring.wptr].flags == 0
         case Publishing(buf) => s.ring.Holds(s.ring.wptr, buf) && s.ring.tds[s.ring.wptr].flags == 0
         case _ => true
       }
  }

  lemma OpenedInv(s: Tx)
    requires Opened(s)
    ensures Inv(s)
  {}

  lemma FullMeans(s: Tx)
    requires Indices(s)
    ensures s.ring.Full() <==> |s.accepted| - |s.taken| == s.ring.depth - 1
  {
    AdvanceSlot(|s.accepted|, s.ring.depth);
    SlotsDiffer(|s.taken|, |s.accepted|, s.ring.depth);
    if |s.accepted| + 1 < |s.taken| + s.ring.depth {
      SlotsDiffer(|s.taken|, |s.accepted| + 1, s.ring.depth);
    } else {
      assert Slot(|s.taken| + s.ring.depth, s.ring.depth) == Slot(|s.taken|, s.ring.depth);
    }
  }

  lemma FillingKeepsInv(s: Tx)
    requires Inv(s) && s.pc.Filling?
    ensures Inv(HostStep(s))
  {
    var buf, done := s.pc.buf, s.pc.done;
    if done < |buf| {
      SlotsApart(|s.taken|, |s.accepted|, |s.accepted|, s.ring.depth);
      KeepsPutByte(s.ring, s.accepted, |s.taken|, |s.accepted|, s.ring.wptr, done, buf[done]);
      var page := HostStep(s).ring.pages[s.ring.wptr];
      assert page[..done + 1] == page[..done] + [buf[done]];
      assert page[..done] == s.ring.pages[s.ring.wptr][..done];
    } else {
      assert buf[..done] == buf;
    }
  }

  lemma DescribingKeepsInv(s: Tx)
    requires Inv(s) && s.pc.Describing?
    ensures Inv(HostStep(s))
  {
    SlotsApart(|s.taken|, |s.accepted|, |s.accepted|, s.ring.depth);
    KeepsPutTd(s.ring, s.accepted, |s.taken|, |s.accepted|, s.ring.wptr, Td(|s.pc.buf|, 0));
  }

  lemma CheckingKeepsInv(s: Tx)
    requires Inv(s) && s.pc.Checking?
    ensures !s.ring.Full() && Inv(HostStep(s))
  {
    FullMeans(s);
  }

  lemma PublishingKeepsInv(s: Tx)
    requires Inv(s) && s.pc.Publishing?
    ensures Inv(HostStep(s))
  {
    AdvanceSlot(|s.accepted|, s.ring.depth);
    var t := HostStep(s);
    KeepsExtend(s.ring, s.accepted, |s.taken|, s.pc.buf);
    KeepsMoved(s.ring, t.ring, t.accepted, |t.taken|, |t.accepted|);
  }

  lemma WriteKeepsInv(s: Tx, buf: seq<byte>)
    requires Inv(s)
    ensures Inv(Next(s, Write(buf)))
  {
    FullMeans(s);
  }

  lemma DeviceKeepsInv(s: Tx, a: Act)
    requires Inv(s) && DeviceAct(a)
    ensures Inv(Next(s, a))
  {
    SlotsDiffer(|s.taken|, |s.accepted|, s.ring.depth);
    if |s.taken| < |s.accepted| {
      AdvanceSlot(|s.taken|, s.ring.depth);
      var buf := s.accepted[|s.taken|];
      assert s.ring.Holds(s.ring.rptr, buf);
      if |s.fetched| < |buf| {
        assert buf[|s.fetched|] == s.ring.pages[s.ring.rptr][|s.fetched|];
      } else {
        assert s.fetched == buf;
      }
      var t := Next(s, a);
      forall i | |t.taken| <= i < |t.accepted| ensures t.ring.Holds(Slot(i, t.ring.depth), t.accepted[i]) {
        assert s.ring.Holds(Slot(i, t.ring.depth), t.accepted[i]);
      }
    }
  }

  lemma NextKeepsInv(s: Tx, a: Act)
    requires Inv(s)
    ensures Inv(Next(s, a))
  {
    match a
    case Write(buf) => WriteKeepsInv(s, buf);
    case Host =>
      match s.pc {
        case Filling(_, _) => FillingKeepsInv(s);
        case Describing(_) => DescribingKeepsInv(s);
        case Checking(_) => CheckingKeepsInv(s);
        case Publishing(_) => PublishingKeepsInv(s);
        case _ =>
      }
    case Fail(_) =>
    case _ => DeviceKeepsInv(s, a);
  }

  lemma {:induction false} RunKeepsInv(s: Tx, acts: seq<Act>)
    requires Inv(s)
    ensures Inv(Run(s, acts))
    decreases |acts|
  {
    if acts != [] {
      NextKeepsInv(s, acts[0]);
      RunKeepsInv(Next(s, acts[0]), acts[1..]);
    }
  }

  /** Over every interleaving: no BUG_ON, the modem takes the accepted buffers in order, and a write in progress works
      on a slot that is not the modem's. */
  lemma TxRefinesFifo(s: Tx, acts: seq<Act>)
    requires Opened(s)
    ensures var t := Run(s, acts);
      && t.Typed()
      && t.pc != Bug
      && t.taken <= t.accepted
      && (t.ring.rptr == t.ring.wptr <==> t.taken == t.accepted)
      && (t.fetched != [] ==> |t.taken| < |t.accepted| && t.fetched <= t.accepted[|t.taken|])
      && !t.ring.DeviceOwns(t.ring.wptr)
      && (t.pc.Checking? || t.pc.Publishing? ==> t.ring.tds[t.ring.wptr] == Td(|t.pc.buf|, 0))
      && (forall i :: |t.taken| <= i < |t.accepted| ==> t.ring.DeviceOwns(Slot(i, t.ring.depth)))
  {
    OpenedInv(s);
    RunKeepsInv(s, acts);
    var t := Run(s, acts);
    SlotsDiffer(|t.taken|, |t.accepted|, t.ring.depth);
    NextNotOwned(t.ring, |t.taken|, |t.accepted|);
    forall i | |t.taken| <= i < |t.accepted| ensures t.ring.DeviceOwns(Slot(i, t.ring.depth)) {
      OwnedIs(t.ring, i, |t.taken|, |t.accepted|);
    }
  }

  /** With a single writer, room once seen stays: the modem only ever makes more. */
  lemma {:induction false} RoomStays(s: Tx, acts: seq<Act>)
    requires Inv(s) && s.pc == Idle && !s.ring.Full()
    requires DeviceOnly(acts)
    ensures var t := Run(s, acts);
      Inv(t) && t.pc == Idle && !t.ring.Full() && t.error == s.error && t.accepted == s.accepted
    decreases |acts|
  {
    if acts != [] {
      assert DeviceAct(acts[0]);
      NextKeepsInv(s, acts[0]);
      FullMeans(s);
      FullMeans(Next(s, acts[0]));
      RoomStays(Next(s, acts[0]), acts[1..]);
    }
  }

  // A write in progress, or finished, has this buffer behind what was accepted before.
  ghost predicate Lands(t: Tx, before: seq<seq<byte>>, buf: seq<byte>) {
    || (t.accepted == before && t.pc != Idle && t.pc != Bug && t.pc.buf == buf)
    || before + [buf] <= t.accepted
  }

  lemma {:induction false} LandsStays(s: Tx, acts: seq<Act>, before: seq<seq<byte>>, buf: seq<byte>)
    requires Inv(s) && Lands(s, before, buf)
    ensures Inv(Run(s, acts)) && Lands(Run(s, acts), before, buf)
    decreases |acts|
  {
    if acts != [] {
      NextKeepsInv(s, acts[0]);
      LandsStays(Next(s, acts[0]), acts[1..], before, buf);
    }
  }

  /** A non-full check, any modem activity, then a write: the buffer is accepted, cut to a page, whatever happens
      next, and in full if it fits a page. */
  lemma CheckedWriteAccepted(s: Tx, between: seq<Act>, buf: seq<byte>, after: seq<Act>)
    requires Inv(s) && s.pc == Idle && s.error == 0 && !s.ring.Full()
    requires DeviceOnly(between)
    ensures var t := Run(s, between);
      && t.Typed()
      && Next(t, Write(buf)).Typed()
      && var u := Run(Next(t, Write(buf)), after);
      && Lands(u, s.accepted, Cut(buf, s.ring.pageSize))
      && (u.pc == Idle ==> s.accepted + [Cut(buf, s.ring.pageSize)] <= u.accepted)
      && (u.pc == Idle && |buf| <= s.ring.pageSize ==> s.accepted + [buf] <= u.accepted)
  {
    RoomStays(s, between);
    RingSizes(s, between);
    var t := Run(s, between);
    NextKeepsInv(t, Write(buf));
    LandsStays(Next(t, Write(buf)), after, s.accepted, Cut(buf, s.ring.pageSize));
  }

  lemma {:induction false} RingSizes(s: Tx, acts: seq<Act>)
    requires s.Typed()
    ensures Run(s, acts).Typed()
    ensures Run(s, acts).ring.pageSize == s.ring.pageSize && Run(s, acts).ring.depth == s.ring.depth
    decreases |acts|
  {
    if acts != [] {
      NextTyped(s, acts[0]);
      RingSizes(Next(s, acts[0]), acts[1..]);
    }
  }

  lemma {:induction false} RunConcat(s: Tx, a: seq<Act>, b: seq<Act>)
    requires s.Typed()
    ensures Run(s, a).Typed() && Run(s, a + b) == Run(Run(s, a), b)
    decreases |a|
  {
    if a == [] {
      assert a + b == b;
    } else {
      NextTyped(s, a[0]);
      RunConcat(Next(s, a[0]), a[1..], b);
      assert (a + b)[1..] == a[1..] + b;
    }
  }

  // The modem's share of time before each further step of a call.
  type Env = seq<seq<Act>>

  ghost predicate ModemEnv(env: Env) {
    forall acts :: acts in env ==> DeviceOnly(acts)
  }

  function Share(env: Env): seq<Act> {
    if env == [] then [] else env[0]
  }

  function Remaining(env: Env): Env {
    if env == [] then [] else env[1..]
  }

  // The steps a call still has to make.
  function Left(pc: Pc): nat {
    match pc
    case Filling(buf, done) => if done < |buf| then |buf| - done + 4 else 4
    case Describing(_) => 3
    case Checking(_) => 2
    case Publishing(_) => 1
    case _ => 0
  }

  lemma {:induction false} DeviceRun(s: Tx, acts: seq<Act>)
    requires s.Typed() && DeviceOnly(acts)
    ensures var t := Run(s, acts);
      && t.Typed() && t.pc == s.pc && t.error == s.error && t.ret == s.ret && t.accepted == s.accepted
      && t.ring.pageSize == s.ring.pageSize && t.ring.depth == s.ring.depth && t.ring.wptr == s.ring.wptr
    decreases |acts|
  {
    if acts != [] {
      assert DeviceAct(acts[0]);
      NextTyped(s, acts[0]);
      DeviceRun(Next(s, acts[0]), acts[1..]);
    }
  }

  // A call in progress, run to its end with the modem in between.
  ghost function Amid(s: Tx, env: Env): (t: Tx)
    requires s.Typed() && ModemEnv(env)
    ensures t.Typed()
    decreases Left(s.pc)
  {
    if Left(s.pc) == 0 then s
    else
      DeviceRun(s, Share(env));
      NextTyped(Run(s, Share(env)), Host);
      Amid(HostStep(Run(s, Share(env))), Remaining(env))
  }

  lemma AmidOver(s: Tx, env: Env)
    requires s.Typed() && ModemEnv(env) && s.pc == Idle
    ensures Amid(s, env) == s
  {}

  // The whole of qp_write.
  ghost function Returned(s: Tx, buf: seq<byte>, env: Env): (t: Tx)
    requires s.Typed() && ModemEnv(env)
    ensures t.Typed()
  {
    NextTyped(s, Write(buf));
    Amid(Next(s, Write(buf)), env)
  }

  lemma {:induction false} AmidEnds(s: Tx, env: Env)
    requires Inv(s) && s.pc != Idle && ModemEnv(env)
    ensures var t := Amid(s, env);
      && Inv(t) && t.pc == Idle && t.error == s.error && t.ret == |s.pc.buf| && t.accepted == s.accepted + [s.pc.buf]
      && t.ring.pageSize == s.ring.pageSize && t.ring.depth == s.ring.depth
    decreases Left(s.pc)
  {
    var m := Run(s, Share(env));
    DeviceRun(s, Share(env));
    RunKeepsInv(s, Share(env));
    NextKeepsInv(m, Host);
    var t := HostStep(m);
    if t.pc != Idle {
      AmidEnds(t, Remaining(env));
    } else {
      assert Amid(t, Remaining(env)) == t;
    }
  }

  lemma {:induction false} AmidQuiet(s: Tx)
    requires s.Typed()
    ensures Amid(s, []).taken == s.taken
    decreases Left(s.pc)
  {
    if Left(s.pc) > 0 {
      assert Run(s, []) == s;
      NextTyped(s, Host);
      AmidQuiet(HostStep(s));
    }
  }

  lemma {:induction false} AmidRuns(s: Tx, env: Env) returns (acts: seq<Act>)
    requires s.Typed() && ModemEnv(env)
    ensures Run(s, acts) == Amid(s, env)
    ensures forall a :: a in acts ==> a == Host || DeviceAct(a)
    decreases Left(s.pc)
  {
    if Left(s.pc) == 0 {
      return [];
    }
    var share := Share(env);
    var m := Run(s, share);
    DeviceRun(s, share);
    NextTyped(m, Host);
    var rest := AmidRuns(HostStep(m), Remaining(env));
    assert ([Host] + rest)[1..] == rest;
    RunConcat(s, share, [Host] + rest);
    acts := share + ([Host] + rest);
  }

  /** qp_write with the modem between any two of its steps is a run of the machine, and these are its three outcomes. */
  lemma WriteOutcome(s: Tx, buf: seq<byte>, env: Env)
    requires Inv(s) && s.pc == Idle && ModemEnv(env)
    ensures var t := Returned(s, buf, env);
      && Inv(t) && t.pc == Idle && t.error == s.error
      && t.ring.pageSize == s.ring.pageSize && t.ring.depth == s.ring.depth
      && (if s.error != 0 then t == s.(ret := s.error)
          else if s.ring.Full() then t == s.(ret := 0)
          else t.ret == Min(|buf|, s.ring.pageSize) && t.accepted == s.accepted + [buf[..t.ret]])
    ensures exists acts :: (forall a :: a in acts ==> a == Host || DeviceAct(a))
                           && Run(s, [Write(buf)] + acts) == Returned(s, buf, env)
  {
    NextKeepsInv(s, Write(buf));
    var t := Next(s, Write(buf));
    if t.pc != Idle {
      AmidEnds(t, env);
      assert buf[..|Cut(buf, s.ring.pageSize)|] == Cut(buf, s.ring.pageSize);
    }
    var acts := AmidRuns(t, env);
    assert ([Write(buf)] + acts)[1..] == acts;
  }
}
