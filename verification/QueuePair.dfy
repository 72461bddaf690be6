/** A queue pair: opening and closing its two rings, writing to one and polling the other. */
module QueuePairs {
  import opened Bytes
  import opened Cyclic
  import opened RingMemory
  import opened TdRing
  import RxRing
  import TxRing

  const EBUSY := -16
  const ENODEV := -19

  datatype Call = Start(txOpening: int, rxOpening: int) | Stop

  // What the lifecycle calls depend on and change: the open flag and the depth of each ring.
  datatype Life = Life(open: bool, tx: nat, rx: nat)

  function Called(l: Life, depth: nat, c: Call): (Life, int) {
    match c
    case Start(txOpening, rxOpening) =>
      if l.open then (l, EBUSY)
      else if txOpening != 0 then (Life(true, depth, l.rx), txOpening)
      else if rxOpening != 0 then (Life(true, 0, depth), rxOpening)
      else (Life(true, depth, depth), 0)
    case Stop =>
      if l.open then (Life(false, 0, 0), 0) else (l, ENODEV)
  }

  function Lives(l: Life, depth: nat, calls: seq<Call>): Life
    decreases |calls|
  {
    if calls == [] then l else Lives(Called(l, depth, calls[0]).0, depth, calls[1..])
  }

  predicate Settled(l: Life) {
    !l.open ==> l.tx == 0 && l.rx == 0
  }

  /** Whatever was called before and however ring openings failed, a closed pair has two empty rings to create. */
  lemma {:induction false} ClosedMeansEmpty(l: Life, depth: nat, calls: seq<Call>)
    requires Settled(l)
    ensures Settled(Lives(l, depth, calls))
    decreases |calls|
  {
    if calls != [] {
      ClosedMeansEmpty(Called(l, depth, calls[0]).0, depth, calls[1..]);
    }
  }

  /** A failed start leaves the pair open: every later start is refused until a stop comes. */
  lemma {:induction false} FailedStartSticks(l: Life, depth: nat, starts: seq<Call>, again: Call)
    requires l.open && again.Start?
    requires forall c :: c in starts ==> c.Start?
    ensures Lives(l, depth, starts) == l
    ensures Called(Lives(l, depth, starts), depth, again).1 == EBUSY
    ensures Called(Called(l, depth, Stop).0, depth, Start(0, 0)).1 == 0
    decreases |starts|
  {
    if starts != [] {
      assert starts[0].Start?;
      FailedStartSticks(l, depth, starts[1..], again);
    }
  }

  ghost function Total(env: seq<seq<RxRing.Act>>): nat {
    if env == [] then 0 else |env[0]| + Total(env[1..])
  }

  ghost predicate DeviceOnly(env: seq<seq<RxRing.Act>>) {
    forall acts, a :: acts in env && a in acts ==> a != RxRing.Host
  }

  class QueuePair {
    const depth: nat
    const pageSize: nat
    const tx: HostRing
    const rx: HostRing
    const pool: DmaPool
    var open: bool

    // Histories since the last start.
    ghost var rxPc: RxRing.Pc
    ghost var completed: seq<seq<byte>>
    ghost var consumed: seq<seq<byte>>
    ghost var txPc: TxRing.Pc
    ghost var ret: int
    ghost var accepted: seq<seq<byte>>
    ghost var taken: seq<seq<byte>>
    // What the modem has read of its next buffer.
    var fetched: seq<byte>

    ghost predicate Apart()
      reads this, tx, rx
    {
      tx != rx && tx.tds != rx.tds && tx.pages != rx.pages
    }

    // Every live page belongs to exactly one ring.
    ghost predicate Valid()
      reads this, tx, tx.tds, tx.pages, rx, rx.tds, rx.pages, pool
    {
      && Apart() && tx.Valid() && rx.Valid() && pool.Valid()
      && PowerOfTwo(depth) && depth < 256 && pageSize <= TD_MAX_PAGE_SIZE
      && pool.live == tx.Pages() + rx.Pages() && tx.Pages() !! rx.Pages()
      && Settled(View())
    }

    ghost function View(): Life
      reads this, tx, rx
    {
      Life(open, tx.depth, rx.depth)
    }

    ghost function RxView(): RxRing.Rx
      reads this, rx, rx.tds, rx.pages
    {
      RxRing.Rx(rx.Mem(), rx.lastHandled, rxPc, completed, consumed)
    }

    ghost predicate RxReady()
      reads this, rx, rx.tds, rx.pages
    {
      rx.Valid() && rx.depth > 0 && RxRing.Inv(RxView())
    }

    ghost function TxView(error: int): TxRing.Tx
      reads this, tx, tx.tds, tx.pages
    {
      TxRing.Tx(tx.Mem(), error, txPc, ret, accepted, taken, fetched)
    }

    ghost predicate TxReady(error: int)
      reads this, tx, tx.tds, tx.pages
    {
      tx.Valid() && tx.depth > 0 && TxRing.Inv(TxView(error))
    }

    constructor (depth: nat, pageSize: nat)
      requires PowerOfTwo(depth) && depth < 256 && pageSize <= TD_MAX_PAGE_SIZE
      ensures Valid() && !open && fresh(tx) && fresh(rx) && fresh(pool)
      ensures fresh(tx.tds) && fresh(tx.pages) && fresh(rx.tds) && fresh(rx.pages)
      ensures this.depth == depth && this.pageSize == pageSize
    {
      this.depth, this.pageSize, open := depth, pageSize, false;
      tx := new HostRing();
      rx := new HostRing();
      pool := new DmaPool();
      rxPc, completed, consumed := RxRing.Idle, [], [];
      txPc, ret, accepted, taken, fetched := TxRing.Idle, 0, [], [], [];
    }

    lemma LivePages()
      requires Valid()
      ensures |pool.live| == tx.depth + rx.depth
    {
      DistinctCount(tx.phys);
      DistinctCount(rx.phys);
    }

    // Lines 566-567, before the modem has been told about the ring.
    method Fill()
      requires Valid() && rx.depth > 0 && rx.wptr == rx.rptr == rx.lastHandled == 0
      modifies rx`wptr, rx.tds
      ensures Valid() && rx.Mem().WellFormed()
      ensures rx.wptr == rx.depth - 1 && rx.rptr == 0
      ensures forall slot :: 0 <= slot < rx.depth - 1 ==> rx.tds[slot] == Td(rx.pageSize, 0)
    {
      assert Slot(0, rx.depth) == 0;
      AdvanceSlot(0, rx.depth);
      var full := rx.Full();
      while !full
        invariant Valid() && rx.wptr < rx.depth && rx.rptr == 0
        invariant full <==> Distance(rx.rptr, rx.wptr, rx.depth) == rx.depth - 1
        invariant full == rx.Mem().Full()
        invariant forall slot :: 0 <= slot < rx.wptr ==> rx.tds[slot] == Td(rx.pageSize, 0)
        decreases rx.depth - rx.wptr, !full
      {
        AdvanceSlot(rx.wptr, rx.depth);
        rx.Read();
        AdvanceSlot(rx.wptr, rx.depth);
        full := rx.Full();
      }
    }

    // A ring that fails to open keeps its depth and its pages.
    method OpenTx(opening: int) returns (ret: int)
      requires Valid() && open && tx.depth == 0 && rx.depth == 0
      modifies tx, pool
      ensures Valid() && tx.depth == depth && ret == opening
      ensures tx.wptr == tx.rptr == 0 && tx.pageSize == pageSize && fresh(tx.tds) && fresh(tx.pages)
    {
      tx.EmptyHasNoPages();
      ret := tx.Create(pool, depth, pageSize, opening);
    }

    method CreateRx(opening: int) returns (ret: int)
      requires Valid() && open && rx.depth == 0
      modifies rx, pool
      ensures Valid() && rx.depth == depth && ret == opening && fresh(rx.tds) && fresh(rx.pages)
      ensures rx.wptr == rx.rptr == rx.lastHandled == 0 && rx.pageSize == pageSize
    {
      rx.EmptyHasNoPages();
      ret := rx.Create(pool, depth, pageSize, opening);
    }

    // When the second ring fails, the first is closed again.
    method OpenRx(opening: int) returns (ret: int)
      requires Valid() && open && rx.depth == 0
      modifies tx, rx, pool
      ensures Valid() && rx.depth == depth && ret == opening && fresh(rx.tds) && fresh(rx.pages)
      ensures rx.wptr == rx.rptr == rx.lastHandled == 0 && rx.pageSize == pageSize
      ensures if ret == 0 then unchanged(tx) else tx.depth == 0
    {
      ret := CreateRx(opening);
      if ret != 0 {
        tx.Destroy(pool);
      }
    }

    method Launch()
      requires Valid() && tx.depth == rx.depth > 0
      requires tx.wptr == tx.rptr == 0 && rx.wptr == rx.rptr == rx.lastHandled == 0
      modifies this`rxPc, this`completed, this`consumed
      modifies this`txPc, this`ret, this`accepted, this`taken, this`fetched
      modifies rx`wptr, rx.tds
      ensures Valid() && RxRing.Opened(RxView()) && TxRing.Opened(TxView(0))
      ensures forall slot :: 0 <= slot < rx.depth - 1 ==> rx.tds[slot] == Td(rx.pageSize, 0)
    {
      Fill();
      Reset();
    }

    // The histories start over.
    method Reset()
      requires tx.Mem().WellFormed() && rx.Mem().WellFormed() && tx.wptr == tx.rptr == 0
      requires rx.rptr == rx.lastHandled == 0 && rx.wptr == rx.depth - 1
      modifies this`rxPc, this`completed, this`consumed
      modifies this`txPc, this`ret, this`accepted, this`taken, this`fetched
      ensures RxRing.Opened(RxView()) && TxRing.Opened(TxView(0))
    {
      rxPc, completed, consumed := RxRing.Idle, [], [];
      txPc, ret, accepted, taken, fetched := TxRing.Idle, 0, [], [], [];
    }

    method QpStart(txOpening: int, rxOpening: int) returns (ret: int)
      requires Valid()
      modifies this, tx, rx, pool
      ensures Valid()
      ensures (View(), ret) == Called(old(View()), depth, Start(txOpening, rxOpening))
      ensures old(open) ==> unchanged(this) && unchanged(tx) && unchanged(rx) && unchanged(pool)
      ensures !old(open) && ret == 0 ==> RxRing.Opened(RxView()) && TxRing.Opened(TxView(0))
      ensures ret == if old(open) then -16 else if txOpening != 0 then txOpening else rxOpening
      ensures !old(open) ==> open && tx.depth == (if txOpening == 0 && rxOpening != 0 then 0 else depth)
      ensures !old(open) ==> rx.depth == if txOpening != 0 then 0 else depth
      ensures !old(open) && ret == 0 ==> tx.pageSize == rx.pageSize == pageSize
      ensures !old(open) && ret == 0 ==>
                forall slot :: 0 <= slot < rx.depth - 1 ==> rx.tds[slot] == Td(rx.pageSize, 0)
      ensures !old(open) && ret == 0 ==> fresh(tx.tds) && fresh(tx.pages) && fresh(rx.tds) && fresh(rx.pages)
    {
      if open {
        return EBUSY;
      }
      open := true;
      ret := OpenTx(txOpening);
      if ret == 0 {
        ret := OpenRx(rxOpening);
        if ret == 0 {
          Launch();
        }
      }
    }

    method QpStop() returns (ret: int)
      requires Valid()
      modifies this`open, tx, rx, pool
      ensures Valid()
      ensures (View(), ret) == Called(old(View()), depth, Stop)
      ensures ret == (if old(open) then 0 else -19) && !open && tx.depth == rx.depth == 0
      ensures old(open) ==> pool.live == {}
      ensures !old(open) ==> unchanged(this) && unchanged(tx) && unchanged(rx) && unchanged(pool)
    {
      if !open {
        return ENODEV;
      }
      open := false;
      tx.Destroy(pool);
      rx.Destroy(pool);
      ret := 0;
    }

    /** Any sequence of starts and stops, with any ring openings failing: the flag and depths follow Lives, so both
        rings are empty whenever one is created, and the live pages are always those of the two rings, each freed
        once. */
    method Perform(calls: seq<Call>)
      requires Valid()
      modifies this, tx, rx, pool
      ensures Valid() && View() == Lives(old(View()), depth, calls)
      ensures |pool.live| == tx.depth + rx.depth
    {
      for i := 0 to |calls|
        invariant Valid() && Lives(old(View()), depth, calls) == Lives(View(), depth, calls[i..])
      {
        assert calls[i..][1..] == calls[i + 1..];
        match calls[i] {
          case Start(txOpening, rxOpening) => var ret := QpStart(txOpening, rxOpening);
          case Stop => var ret := QpStop();
        }
      }
      LivePages();
    }

    // One act of the modem on the transmit ring.
    method ModemReads(a: TxRing.Act, ghost error: int)
      requires tx.Valid() && tx.depth > 0 && TxView(error).Typed() && TxRing.DeviceAct(a)
      modifies this`taken, this`fetched, tx`rptr
      ensures tx.Valid() && TxView(error) == TxRing.Next(old(TxView(error)), a)
    {
      if tx.rptr != tx.wptr {
        var length := tx.tds[tx.rptr].length;
        if a.Fetch? && |fetched| < length && |fetched| < tx.pageSize {
          fetched := fetched + [tx.pages[tx.rptr][|fetched|]];
        } else if a.Finish? && |fetched| == length {
          taken, fetched := taken + [fetched], [];
          tx.rptr := Advance(tx.rptr, tx.depth);
        }
      }
    }

    // The modem's share of time before the next step of a write.
    method ModemTakes(acts: seq<TxRing.Act>, ghost error: int)
      requires TxReady(error) && TxRing.DeviceOnly(acts)
      modifies this`taken, this`fetched, tx`rptr
      ensures TxReady(error) && TxView(error) == TxRing.Run(old(TxView(error)), acts)
    {
      for i := 0 to |acts|
        invariant TxReady(error) && TxRing.Run(old(TxView(error)), acts) == TxRing.Run(TxView(error), acts[i..])
      {
        assert acts[i] in acts && acts[i..][1..] == acts[i + 1..];
        TxRing.NextKeepsInv(TxView(error), acts[i]);
        ModemReads(acts[i], error);
      }
    }

    // The modem's share, and what is left of a call after the host step that follows it.
    method ModemThen(env: TxRing.Env, ghost error: int) returns (rest: TxRing.Env)
      requires TxReady(error) && TxRing.ModemEnv(env) && txPc != TxRing.Idle
      modifies this`taken, this`fetched, tx`rptr
      ensures TxReady(error) && TxRing.ModemEnv(rest) && txPc == old(txPc) && tx.wptr == old(tx.wptr)
      ensures TxRing.Inv(TxRing.HostStep(TxView(error)))
      ensures TxRing.Amid(old(TxView(error)), env) == TxRing.Amid(TxRing.HostStep(TxView(error)), rest)
    {
      TxRing.DeviceRun(TxView(error), TxRing.Share(env));
      ModemTakes(TxRing.Share(env), error);
      rest := TxRing.Remaining(env);
      TxRing.NextKeepsInv(TxView(error), TxRing.Host);
    }

    method SendByte(buf: seq<byte>, i: nat, env: TxRing.Env, ghost error: int) returns (rest: TxRing.Env)
      requires TxReady(error) && TxRing.ModemEnv(env) && txPc == TxRing.Filling(buf, i) && i < |buf|
      modifies this`txPc, this`taken, this`fetched, tx`rptr, tx.pages
      ensures TxReady(error) && TxRing.ModemEnv(rest) && txPc == TxRing.Filling(buf, i + 1)
      ensures TxRing.Amid(old(TxView(error)), env) == TxRing.Amid(TxView(error), rest)
    {
      rest := ModemThen(env, error);
      tx.PutByte(i, buf[i]);
      txPc := TxRing.Filling(buf, i + 1);
    }

    // memcpy, with the modem running in between.
    method SendBytes(buf: seq<byte>, env: TxRing.Env, ghost error: int) returns (rest: TxRing.Env)
      requires TxReady(error) && TxRing.ModemEnv(env) && txPc == TxRing.Filling(buf, 0)
      modifies this`txPc, this`taken, this`fetched, tx`rptr, tx.pages
      ensures TxReady(error) && TxRing.ModemEnv(rest) && txPc == TxRing.Describing(buf)
      ensures TxRing.Amid(old(TxView(error)), env) == TxRing.Amid(TxView(error), rest)
    {
      rest := env;
      for i := 0 to |buf|
        invariant TxReady(error) && TxRing.ModemEnv(rest) && txPc == TxRing.Filling(buf, i)
        invariant TxRing.Amid(old(TxView(error)), env) == TxRing.Amid(TxView(error), rest)
      {
        rest := SendByte(buf, i, rest, error);
      }
      rest := SendLast(buf, rest, error);
    }

    // The end of memcpy's loop.
    method SendLast(buf: seq<byte>, env: TxRing.Env, ghost error: int) returns (rest: TxRing.Env)
      requires TxReady(error) && TxRing.ModemEnv(env) && txPc == TxRing.Filling(buf, |buf|)
      modifies this`txPc, this`taken, this`fetched, tx`rptr
      ensures TxReady(error) && TxRing.ModemEnv(rest) && txPc == TxRing.Describing(buf)
      ensures TxRing.Amid(old(TxView(error)), env) == TxRing.Amid(TxView(error), rest)
    {
      rest := ModemThen(env, error);
      txPc := TxRing.Describing(buf);
    }

    method SendTd(buf: seq<byte>, env: TxRing.Env, ghost error: int) returns (rest: TxRing.Env)
      requires TxReady(error) && TxRing.ModemEnv(env) && txPc == TxRing.Describing(buf)
      modifies this`txPc, this`taken, this`fetched, tx`rptr, tx.tds
      ensures TxReady(error) && TxRing.ModemEnv(rest) && txPc == TxRing.Checking(buf)
      ensures TxRing.Amid(old(TxView(error)), env) == TxRing.Amid(TxView(error), rest)
    {
      rest := ModemThen(env, error);
      tx.PutTd(Td(|buf|, 0));
      txPc := TxRing.Checking(buf);
    }

    // The BUG_ON of td_ring_write never fires.
    method SendCheck(buf: seq<byte>, env: TxRing.Env, ghost error: int) returns (rest: TxRing.Env)
      requires TxReady(error) && TxRing.ModemEnv(env) && txPc == TxRing.Checking(buf)
      modifies this`txPc, this`taken, this`fetched, tx`rptr
      ensures TxReady(error) && TxRing.ModemEnv(rest) && txPc == TxRing.Publishing(buf)
      ensures TxRing.Amid(old(TxView(error)), env) == TxRing.Amid(TxView(error), rest)
    {
      rest := ModemThen(env, error);
      TxRing.CheckingKeepsInv(TxView(error));
      var full := tx.Full();
      assert !full;
      txPc := TxRing.Publishing(buf);
    }

    method SendPublish(buf: seq<byte>, env: TxRing.Env, ghost error: int)
      requires TxReady(error) && TxRing.ModemEnv(env) && txPc == TxRing.Publishing(buf)
      modifies this`txPc, this`ret, this`accepted, this`taken, this`fetched, tx`rptr, tx`wptr
      ensures TxReady(error) && txPc == TxRing.Idle
      ensures TxView(error) == TxRing.Amid(old(TxView(error)), env)
    {
      ghost var rest := ModemThen(env, error);
      TxRing.AmidOver(TxRing.HostStep(TxView(error)), rest);
      Expose(buf, error);
    }

    method Expose(buf: seq<byte>, ghost error: int)
      requires tx.Valid() && tx.depth > 0 && TxView(error).Typed() && txPc == TxRing.Publishing(buf)
      modifies this`txPc, this`ret, this`accepted, tx`wptr
      ensures tx.Valid() && TxView(error) == TxRing.HostStep(old(TxView(error)))
    {
      tx.Publish();
      txPc, ret, accepted := TxRing.Idle, |buf|, accepted + [buf];
    }

    // td_ring_write.
    method RingWrite(buf: seq<byte>, env: TxRing.Env, ghost error: int)
      requires TxReady(error) && TxRing.ModemEnv(env) && txPc == TxRing.Filling(buf, 0)
      modifies this`txPc, this`ret, this`accepted, this`taken, this`fetched, tx`rptr, tx`wptr, tx.tds, tx.pages
      ensures TxReady(error) && txPc == TxRing.Idle
      ensures TxView(error) == TxRing.Amid(old(TxView(error)), env)
    {
      var rest := SendBytes(buf, env, error);
      rest := SendTd(buf, rest, error);
      rest := SendCheck(buf, rest, error);
      SendPublish(buf, rest, error);
    }

    method CanWrite() returns (room: bool)
      requires tx.Valid() && tx.depth > 0
      ensures room == TxView(0).CanWrite()
      ensures room <==> Distance(tx.rptr, tx.wptr, tx.depth) < tx.depth - 1
    {
      var full := tx.Full();
      room := !full;
    }

    // A call that returns at once.
    method Decline(size: int, ghost buf: seq<byte>, ghost error: int, ghost env: TxRing.Env)
      requires TxReady(error) && txPc == TxRing.Idle && TxRing.ModemEnv(env)
      requires (error != 0 && size == error) || (error == 0 && !TxView(error).CanWrite() && size == 0)
      modifies this`ret
      ensures TxReady(error) && TxView(error) == TxRing.Returned(old(TxView(error)), buf, env)
    {
      TxRing.WriteOutcome(TxView(error), buf, env);
      ret := size;
    }

    // A call that finds room.
    method Accept(buf: seq<byte>, env: TxRing.Env) returns (size: int)
      requires TxReady(0) && txPc == TxRing.Idle && TxRing.ModemEnv(env) && TxView(0).CanWrite()
      modifies this`txPc, this`ret, this`accepted, this`taken, this`fetched, tx`rptr, tx`wptr, tx.tds, tx.pages
      ensures TxReady(0) && txPc == TxRing.Idle
      ensures TxView(0) == TxRing.Returned(old(TxView(0)), buf, env) && size == ret
    {
      var cut := if |buf| > tx.pageSize then buf[..tx.pageSize] else buf;
      ghost var start := TxView(0);
      TxRing.WriteOutcome(start, buf, env);
      TxRing.NextKeepsInv(start, TxRing.Write(buf));
      txPc := TxRing.Filling(cut, 0);
      RingWrite(cut, env, 0);
      size := |cut|;
    }

    method WriteTx(buf: seq<byte>, error: int, env: TxRing.Env) returns (size: int)
      requires TxReady(error) && txPc == TxRing.Idle && TxRing.ModemEnv(env)
      modifies this`txPc, this`ret, this`accepted, this`taken, this`fetched, tx`rptr, tx`wptr, tx.tds, tx.pages
      ensures TxReady(error) && txPc == TxRing.Idle
      ensures TxView(error) == TxRing.Returned(old(TxView(error)), buf, env) && size == ret
    {
      if error != 0 {
        Decline(error, buf, error, env);
        return error;
      }
      var room := CanWrite();
      if !room {
        Decline(0, buf, error, env);
        return 0;
      }
      size := Accept(buf, env);
    }

    /** qp_write, with the modem running between any two of its accesses: it has exactly the outcome of the machine,
        which TxRing.WriteOutcome describes. */
    method Write(buf: seq<byte>, error: int, env: TxRing.Env) returns (size: int)
      requires Valid() && TxReady(error) && txPc == TxRing.Idle && TxRing.ModemEnv(env)
      modifies this`txPc, this`ret, this`accepted, this`taken, this`fetched, tx`rptr, tx`wptr, tx.tds, tx.pages
      ensures Valid() && TxReady(error) && txPc == TxRing.Idle
      ensures TxView(error) == TxRing.Returned(old(TxView(error)), buf, env) && size == ret
      ensures var room := old(Distance(tx.rptr, tx.wptr, tx.depth) < tx.depth - 1);
        && size == (if error != 0 then error else if room then Min(|buf|, tx.pageSize) else 0)
        && accepted == old(accepted) + if error == 0 && room then [buf[..size]] else []
    {
      TxRing.WriteOutcome(TxView(error), buf, env);
      FullIs(tx.Mem());
      size := WriteTx(buf, error, env);
    }

    // qp_has_data; an idle host that sees no data has consumed everything.
    method HasData() returns (data: bool)
      requires RxReady() && rxPc.Idle?
      modifies this`rxPc
      ensures RxReady() && data == old(RxView()).HasData()
      ensures Tested(data) && |consumed| <= |completed|
    {
      RxRing.HasDataMeans(RxView());
      RxRing.IdleKeepsInv(RxView());
      data := rx.rptr != rx.lastHandled;
      if data {
        rxPc := RxRing.Reading(rx.lastHandled);
      }
    }

    // One act of the modem on the receive ring.
    method ModemActs(a: RxRing.Act)
      requires rx.Valid() && rx.depth > 0 && RxView().Typed() && a != RxRing.Host
      modifies this`completed, rx`rptr, rx.tds, rx.pages
      ensures rx.Valid() && RxView() == RxRing.Next(old(RxView()), a)
      ensures |completed| <= |old(completed)| + 1 && old(completed) <= completed
    {
      match a
      case PokeByte(slot, off, b) =>
        if slot < rx.depth && off < rx.pageSize
           && Distance(rx.rptr, slot, rx.depth) < Distance(rx.rptr, rx.wptr, rx.depth) {
          rx.pages[slot] := rx.pages[slot][off := b];
        }
      case PokeTd(slot, td) =>
        if slot < rx.depth && Distance(rx.rptr, slot, rx.depth) < Distance(rx.rptr, rx.wptr, rx.depth) {
          rx.tds[slot] := td;
        }
      case Complete =>
        if rx.rptr != rx.wptr && rx.tds[rx.rptr].length <= rx.pageSize {
          completed := completed + [RxRing.Received(rx.Mem())];
          rx.rptr := Advance(rx.rptr, rx.depth);
        }
    }

    // The modem's share of time at one point of the polling loop: the next element of env.
    method Modem(env: seq<seq<RxRing.Act>>) returns (rest: seq<seq<RxRing.Act>>)
      requires RxReady() && DeviceOnly(env)
      modifies this`completed, rx`rptr, rx.tds, rx.pages
      ensures RxReady() && DeviceOnly(rest)
      ensures old(completed) <= completed && |completed| + Total(rest) <= |old(completed)| + Total(env)
    {
      if env == [] {
        return [];
      }
      var acts := env[0];
      assert DeviceOnly([acts]) && acts in env;
      for i := 0 to |acts|
        invariant RxReady()
        invariant old(completed) <= completed && |completed| <= |old(completed)| + i
      {
        assert acts[i] in acts;
        RxRing.DeviceKeepsInv(RxView(), acts[i]);
        ModemActs(acts[i]);
      }
      rest := env[1..];
    }

    method BeginRead() returns (idx: nat, nread: nat)
      requires RxReady() && rxPc.Reading?
      modifies this`rxPc
      ensures RxReady() && rxPc == RxRing.Copying(idx, nread, [])
    {
      RxRing.ReadingKeepsInv(RxView());
      idx := rx.lastHandled;
      nread := rx.tds[idx].length;
      rxPc := RxRing.Copying(idx, nread, []);
    }

    method CopyByte(idx: nat, nread: nat, buf: seq<byte>) returns (b: byte)
      requires RxReady()
      requires rxPc == RxRing.Copying(idx, nread, buf) && |buf| < nread
      modifies this`rxPc
      ensures RxReady() && rxPc == RxRing.Copying(idx, nread, buf + [b])
    {
      RxRing.HostKeepsInv(RxView());
      b := rx.pages[idx][|buf|];
      rxPc := RxRing.Copying(idx, nread, buf + [b]);
    }

    method EndCopy(idx: nat, nread: nat, buf: seq<byte>)
      requires RxReady()
      requires rxPc == RxRing.Copying(idx, nread, buf) && |buf| >= nread
      modifies this`rxPc, this`consumed
      ensures RxReady()
      ensures rxPc == RxRing.Rewriting(idx) && consumed == old(consumed) + [buf]
    {
      RxRing.HostKeepsInv(RxView());
      rxPc, consumed := RxRing.Rewriting(idx), consumed + [buf];
    }

    // tty_insert_flip_string, byte by byte, with the modem running in between.
    method CopyPage(idx: nat, nread: nat, env: seq<seq<RxRing.Act>>)
      returns (buf: seq<byte>, rest: seq<seq<RxRing.Act>>)
      requires RxReady() && DeviceOnly(env)
      requires rxPc == RxRing.Copying(idx, nread, [])
      modifies this`rxPc, this`completed, this`consumed, rx`rptr, rx.tds, rx.pages
      ensures RxReady() && DeviceOnly(rest)
      ensures rxPc == RxRing.Rewriting(idx) && consumed == old(consumed) + [buf]
      ensures old(completed) <= completed && |completed| + Total(rest) <= |old(completed)| + Total(env)
    {
      buf, rest := [], env;
      while |buf| < nread
        invariant RxReady() && DeviceOnly(rest)
        invariant rxPc == RxRing.Copying(idx, nread, buf) && consumed == old(consumed)
        invariant old(completed) <= completed && |completed| + Total(rest) <= |old(completed)| + Total(env)
        decreases nread - |buf|
      {
        var b := CopyByte(idx, nread, buf);
        buf := buf + [b];
        rest := Modem(rest);
      }
      EndCopy(idx, nread, buf);
    }

    method RepostTd(idx: nat)
      requires RxReady() && rxPc == RxRing.Rewriting(idx)
      modifies this`rxPc, rx.tds
      ensures RxReady() && rxPc == RxRing.Checking(idx)
      ensures rx.tds[rx.wptr] == Td(rx.pageSize, 0)
    {
      RxRing.RewritingKeepsInv(RxView());
      rx.PutTd(Td(rx.pageSize, 0));
      rxPc := RxRing.Checking(idx);
    }

    // The BUG_ON of td_ring_read never fires.
    method RepostCheck(idx: nat)
      requires RxReady() && rxPc == RxRing.Checking(idx)
      modifies this`rxPc
      ensures RxReady() && rxPc == RxRing.Publishing(idx)
      ensures rx.tds[rx.wptr] == Td(rx.pageSize, 0)
    {
      RxRing.CheckingKeepsInv(RxView());
      var full := rx.Full();
      assert !full;
      rxPc := RxRing.Publishing(idx);
    }

    method RepostPublish(idx: nat)
      requires RxReady() && rxPc == RxRing.Publishing(idx)
      modifies this`rxPc, rx`wptr
      ensures RxReady() && rxPc == RxRing.Finishing(idx)
      ensures rx.tds[old(rx.wptr)] == Td(rx.pageSize, 0)
    {
      RxRing.PublishingKeepsInv(RxView());
      rx.Publish();
      rxPc := RxRing.Finishing(idx);
    }

    // td_ring_read, with the modem running in between.
    method Repost(idx: nat, env: seq<seq<RxRing.Act>>) returns (rest: seq<seq<RxRing.Act>>)
      requires RxReady() && rxPc == RxRing.Rewriting(idx) && DeviceOnly(env)
      modifies this`rxPc, this`completed, rx`rptr, rx`wptr, rx.tds, rx.pages
      ensures RxReady() && rxPc == RxRing.Finishing(idx) && DeviceOnly(rest)
      ensures old(completed) <= completed && |completed| + Total(rest) <= |old(completed)| + Total(env)
    {
      RepostTd(idx);
      rest := Modem(env);
      rest := RepostRest(idx, rest);
    }

    method RepostRest(idx: nat, env: seq<seq<RxRing.Act>>) returns (rest: seq<seq<RxRing.Act>>)
      requires RxReady() && rxPc == RxRing.Checking(idx) && DeviceOnly(env)
      modifies this`rxPc, this`completed, rx`rptr, rx`wptr, rx.tds, rx.pages
      ensures RxReady() && rxPc == RxRing.Finishing(idx) && DeviceOnly(rest)
      ensures old(completed) <= completed && |completed| + Total(rest) <= |old(completed)| + Total(env)
    {
      RepostCheck(idx);
      rest := Modem(env);
      RepostPublish(idx);
    }

    method Finish(idx: nat)
      requires RxReady() && rxPc == RxRing.Finishing(idx)
      modifies this`rxPc, rx`lastHandled
      ensures RxReady() && rxPc == RxRing.Idle
    {
      RxRing.FinishingKeepsInv(RxView());
      rx.lastHandled := Advance(idx, rx.depth);
      rxPc := RxRing.Idle;
    }

    // The modem runs before and after last_handled moves on.
    method FinishLater(idx: nat, env: seq<seq<RxRing.Act>>) returns (rest: seq<seq<RxRing.Act>>)
      requires RxReady() && rxPc == RxRing.Finishing(idx) && DeviceOnly(env)
      modifies this`rxPc, this`completed, rx`rptr, rx`lastHandled, rx.tds, rx.pages
      ensures RxReady() && rxPc.Idle? && DeviceOnly(rest)
      ensures old(completed) <= completed && |completed| + Total(rest) <= |old(completed)| + Total(env)
    {
      rest := Modem(env);
      Finish(idx);
      rest := Modem(rest);
    }

    // The page goes back to the modem before last_handled moves on.
    method Acknowledge(idx: nat, env: seq<seq<RxRing.Act>>) returns (rest: seq<seq<RxRing.Act>>)
      requires RxReady() && rxPc == RxRing.Rewriting(idx) && DeviceOnly(env)
      modifies this`rxPc, this`completed, rx`rptr, rx`wptr, rx`lastHandled, rx.tds, rx.pages
      ensures RxReady() && rxPc.Idle? && DeviceOnly(rest)
      ensures old(completed) <= completed && |completed| + Total(rest) <= |old(completed)| + Total(env)
    {
      rest := Repost(idx, env);
      rest := FinishLater(idx, rest);
    }

    method ReadLength(env: seq<seq<RxRing.Act>>) returns (idx: nat, nread: nat, rest: seq<seq<RxRing.Act>>)
      requires RxReady() && DeviceOnly(env) && rxPc.Reading?
      modifies this`rxPc, this`completed, rx`rptr, rx.tds, rx.pages
      ensures RxReady() && rxPc == RxRing.Copying(idx, nread, []) && DeviceOnly(rest)
      ensures old(completed) <= completed && |completed| + Total(rest) <= |old(completed)| + Total(env)
    {
      rest := Modem(env);
      idx, nread := BeginRead();
      rest := Modem(rest);
    }

    method ReadPage(env: seq<seq<RxRing.Act>>) returns (idx: nat, buf: seq<byte>, rest: seq<seq<RxRing.Act>>)
      requires RxReady() && DeviceOnly(env) && rxPc.Reading?
      modifies this`rxPc, this`completed, this`consumed, rx`rptr, rx.tds, rx.pages
      ensures RxReady() && rxPc == RxRing.Rewriting(idx) && DeviceOnly(rest)
      ensures consumed == old(consumed) + [buf] && old(completed) <= completed
      ensures |completed| + Total(rest) <= |old(completed)| + Total(env)
    {
      var nread;
      idx, nread, rest := ReadLength(env);
      buf, rest := CopyPage(idx, nread, rest);
    }

    // One turn of the polling loop. The host had consumed start before the loop.
    method Receive(env: seq<seq<RxRing.Act>>, done: seq<seq<byte>>, ghost start: seq<seq<byte>>)
      returns (delivered: seq<seq<byte>>, rest: seq<seq<RxRing.Act>>)
      requires RxReady() && DeviceOnly(env) && rxPc.Reading? && consumed == start + done
      modifies this`rxPc, this`completed, this`consumed, rx`rptr, rx`wptr, rx`lastHandled, rx.tds, rx.pages
      ensures RxReady() && rxPc.Idle? && DeviceOnly(rest)
      ensures consumed == start + delivered && |consumed| == |old(consumed)| + 1 && old(completed) <= completed
      ensures |completed| + Total(rest) <= |old(completed)| + Total(env)
    {
      var idx, buf;
      idx, buf, rest := ReadPage(env);
      delivered := done + [buf];
      rest := Acknowledge(idx, rest);
    }

    // Behind a test of has_data: either the host reads on, or it has consumed everything.
    ghost predicate Tested(data: bool)
      reads this
    {
      if data then rxPc.Reading? else rxPc.Idle? && consumed == completed
    }

    method PollRx(env: seq<seq<RxRing.Act>>) returns (delivered: seq<seq<byte>>)
      requires RxReady() && rxPc.Idle? && DeviceOnly(env)
      modifies this`rxPc, this`completed, this`consumed, rx`rptr, rx`wptr, rx`lastHandled, rx.tds, rx.pages
      ensures RxReady() && rxPc.Idle?
      ensures old(completed) <= completed && consumed == completed
      ensures old(consumed) + delivered == completed
    {
      delivered := [];
      ghost var start := consumed;
      var rest := env;
      var data := HasData();
      while data
        invariant RxReady() && DeviceOnly(rest) && Tested(data)
        invariant old(completed) <= completed && consumed == start + delivered
        decreases |completed| + Total(rest) - |consumed|
      {
        delivered, rest := Receive(rest, delivered, start);
        data := HasData();
      }
    }

    /** The polling loop of a tty and of the network device, disturbed by any env: it delivers, in order and once each,
        exactly the buffers the modem completed, including those completed while it runs. */
    method Poll(env: seq<seq<RxRing.Act>>) returns (delivered: seq<seq<byte>>)
      requires Valid() && RxReady() && rxPc.Idle? && DeviceOnly(env)
      modifies this`rxPc, this`completed, this`consumed, rx`rptr, rx`wptr, rx`lastHandled, rx.tds, rx.pages
      ensures Valid() && RxReady() && rxPc.Idle?
      ensures old(completed) <= completed && consumed == completed
      ensures old(consumed) + delivered == completed
      ensures rx.rptr == rx.lastHandled == |completed| % rx.depth
      ensures rx.wptr == (|completed| + rx.depth - 1) % rx.depth
    {
      delivered := PollRx(env);
      SlotIsModulo(|completed|, rx.depth);
      SlotIsModulo(|completed| + rx.depth - 1, rx.depth);
    }
  }
}
