/** The device-to-host half of a queue pair: every interleaving of the polling loop with the modem. */
module RxRing {
  import opened Bytes
  import opened Cyclic
  import opened RingMemory

  // Where the host is between two accesses to shared memory. Bug is a BUG_ON or a read past a page.
  datatype Pc =
    | Idle
    | Reading(idx: nat)
    | Copying(idx: nat, nread: nat, got: seq<byte>)
    | Rewriting(idx: nat)
    | Checking(idx: nat)
    | Publishing(idx: nat)
    | Finishing(idx: nat)
    | Bug

  // completed and consumed are histories: what the modem handed over, what the host took.
  datatype Rx = Rx(ring: Ring, lastHandled: nat, pc: Pc, completed: seq<seq<byte>>, consumed: seq<seq<byte>>) {

    ghost predicate Typed() {
      && ring.WellFormed()
      && lastHandled < ring.depth
      && (pc != Idle && pc != Bug ==> pc.idx < ring.depth)
    }

    predicate HasData() {
      ring.rptr != lastHandled
    }

    function Handled(): int {
      |consumed| - if pc == Idle || pc == Bug || pc.Reading? || pc.Copying? then 0 else 1
    }

    function Posted(): int {
      Handled() + ring.depth - 1 + if pc.Finishing? then 1 else 0
    }
  }

  datatype Act =
    | Host
    | PokeByte(slot: nat, off: nat, b: byte)
    | PokeTd(slot: nat, td: Td)
    | Complete

  // One step of the host, following the program text: one access to shared memory, except that the stores into a
  // descriptor are one step. The modem does not own that descriptor, so it sees it only once it is published.
  function HostStep(s: Rx): Rx
    requires s.Typed()
  {
    match s.pc
    case Idle =>
      if s.HasData() then s.(pc := Reading(s.lastHandled)) else s
    case Reading(idx) => s.(pc := Copying(idx, s.ring.tds[idx].length, []))
    case Copying(idx, nread, got) =>
      if |got| >= nread then s.(pc := Rewriting(idx), consumed := s.consumed + [got])
      else if |got| >= s.ring.pageSize then s.(pc := Bug)
      else s.(pc := Copying(idx, nread, got + [s.ring.pages[idx][|got|]]))
    case Rewriting(idx) =>
      s.(ring := s.ring.PutTd(s.ring.wptr, Td(s.ring.pageSize, 0)), pc := Checking(idx))
    case Checking(idx) => s.(pc := if s.ring.Full() then Bug else Publishing(idx))
    case Publishing(idx) => s.(ring := s.ring.Publish(), pc := Finishing(idx))
    case Finishing(idx) =>
      s.(lastHandled := Advance(idx, s.ring.depth), pc := Idle)
    case Bug => s
  }

  // The modem may scribble on anything it owns, one byte or descriptor at a time, and completes its descriptors in
  // order: having written the length into the next one, it moves rptr.
  function Next(s: Rx, a: Act): Rx
    requires s.Typed()
  {
    match a
    case Host => HostStep(s)
    case PokeByte(slot, off, b) =>
      if slot < s.ring.depth && off < s.ring.pageSize && s.ring.DeviceOwns(slot)
      then s.(ring := s.ring.PutByte(slot, off, b)) else s
    case PokeTd(slot, td) =>
      if slot < s.ring.depth && s.ring.DeviceOwns(slot) then s.(ring := s.ring.PutTd(slot, td)) else s
    case Complete =>
      if s.ring.rptr != s.ring.wptr && s.ring.tds[s.ring.rptr].length <= s.ring.pageSize
      then s.(ring := s.ring.Take(), completed := s.completed + [Received(s.ring)]) else s
  }

  // The buffer in the descriptor the modem completes next.
  function Received(r: Ring): seq<byte>
    requires r.rptr < |r.tds| && r.rptr < |r.pages| && r.tds[r.rptr].length <= |r.pages[r.rptr]|
  {
    r.pages[r.rptr][..r.tds[r.rptr].length]
  }

  lemma NextTyped(s: Rx, a: Act)
    requires s.Typed()
    ensures Next(s, a).Typed()
  {}

  ghost function Run(s: Rx, acts: seq<Act>): Rx
    requires s.Typed()
    decreases |acts|
  {
    if acts == [] then s
    else
      NextTyped(s, acts[0]);
      Run(Next(s, acts[0]), acts[1..])
  }

  // The ring just after it was opened and filled, before the doorbell.
  ghost predicate Opened(s: Rx) {
    && s.Typed()
    && s.pc == Idle && s.lastHandled == 0
    && s.ring.rptr == 0 && s.ring.wptr == s.ring.depth - 1
    && s.completed == [] && s.consumed == []
  }

  ghost predicate Indices(s: Rx) {
    && s.Typed()
    && s.pc != Bug
    && 0 <= s.Handled() <= |s.completed| <= s.Posted() < |s.completed| + s.ring.depth
    && s.lastHandled == Slot(s.Handled(), s.ring.depth)
    && s.ring.rptr == Slot(|s.completed|, s.ring.depth)
    && s.ring.wptr == Slot(s.Posted(), s.ring.depth)
    && (s.pc != Idle ==> s.pc.idx == s.lastHandled && s.Handled() < |s.completed|)
  }

  // What the next store of s_wptr hands to the modem: a descriptor that offers the whole page.
  ghost predicate Offers(s: Rx) {
    s.Typed() && (s.pc.Checking? || s.pc.Publishing? ==> s.ring.tds[s.ring.wptr] == Td(s.ring.pageSize, 0))
  }

  ghost predicate Inv(s: Rx) {
    && Indices(s) && Offers(s)
    && s.consumed <= s.completed
    && Keeps(s.ring, s.completed, s.Handled(), |s.completed|)
    && (s.pc.Copying? ==> s.pc.nread == |s.completed[s.Handled()]| && s.pc.got <= s.completed[s.Handled()])
  }

  lemma OpenedInv(s: Rx)
    requires Opened(s)
    ensures Inv(s)
  {}

  lemma IdleKeepsInv(s: Rx)
    requires Inv(s) && s.pc.Idle?
    ensures Inv(HostStep(s))
  {
    SlotsDiffer(s.Handled(), |s.completed|, s.ring.depth);
  }

  lemma ReadingKeepsInv(s: Rx)
    requires Inv(s) && s.pc.Reading?
    ensures Inv(HostStep(s))
  {
    assert s.ring.Holds(s.lastHandled, s.completed[s.Handled()]);
  }

  lemma CopyingKeepsInv(s: Rx)
    requires Inv(s) && s.pc.Copying?
    ensures Inv(HostStep(s))
  {
    var buf, got := s.completed[s.Handled()], s.pc.got;
    assert s.ring.Holds(s.lastHandled, buf);
    if |got| < |buf| {
      assert buf[|got|] == s.ring.pages[s.pc.idx][|got|];
    } else {
      assert got == buf;
      assert s.consumed + [got] <= s.completed;
    }
  }

  lemma RewritingKeepsInv(s: Rx)
    requires Inv(s) && s.pc.Rewriting?
    ensures Inv(HostStep(s))
  {
    SlotsApart(s.Handled(), |s.completed|, s.Posted(), s.ring.depth);
    KeepsPutTd(s.ring, s.completed, s.Handled(), |s.completed|, s.ring.wptr, Td(s.ring.pageSize, 0));
  }

  lemma NotFull(s: Rx)
    requires Indices(s) && s.pc.Checking?
    ensures !s.ring.Full()
  {
    AdvanceSlot(s.Posted(), s.ring.depth);
    SlotsDiffer(|s.completed|, s.Posted() + 1, s.ring.depth);
  }

  /** The BUG_ON in td_ring_read compares masked indices that are less than depth apart. */
  lemma CheckingKeepsInv(s: Rx)
    requires Inv(s) && s.pc.Checking?
    ensures !s.ring.Full() && Inv(HostStep(s))
  {
    NotFull(s);
  }

  lemma PublishingKeepsInv(s: Rx)
    requires Inv(s) && s.pc.Publishing?
    ensures Inv(HostStep(s))
  {
    AdvanceSlot(s.Posted(), s.ring.depth);
    KeepsMoved(s.ring, s.ring.Publish(), s.completed, s.Handled(), |s.completed|);
  }

  lemma FinishingKeepsInv(s: Rx)
    requires Inv(s) && s.pc.Finishing?
    ensures Inv(HostStep(s))
  {
    AdvanceSlot(s.Handled(), s.ring.depth);
  }

  lemma HostKeepsInv(s: Rx)
    requires Inv(s)
    ensures Inv(HostStep(s))
  {
    match s.pc
    case Idle => IdleKeepsInv(s);
    case Reading(_) => ReadingKeepsInv(s);
    case Copying(_, _, _) => CopyingKeepsInv(s);
    case Rewriting(_) => RewritingKeepsInv(s);
    case Checking(_) => CheckingKeepsInv(s);
    case Publishing(_) => PublishingKeepsInv(s);
    case Finishing(_) => FinishingKeepsInv(s);
  }

  lemma HandledNotOwned(s: Rx)
    requires Inv(s)
    ensures forall i :: s.Handled() <= i < |s.completed| ==> !s.ring.DeviceOwns(Slot(i, s.ring.depth))
  {
    forall i | s.Handled() <= i < |s.completed| ensures !s.ring.DeviceOwns(Slot(i, s.ring.depth)) {
      NotOwned(s.ring, i, |s.completed|, s.Posted());
    }
  }

  lemma CompleteKeeps(r: Ring, log: seq<seq<byte>>, from: nat)
    requires r.WellFormed() && r.tds[r.rptr].length <= r.pageSize
    requires r.rptr == Slot(|log|, r.depth) && Keeps(r, log, from, |log|)
    ensures Keeps(r.Take(), log + [Received(r)], from, |log| + 1)
  {
    KeepsExtend(r, log, from, Received(r));
    KeepsMoved(r, r.Take(), log + [Received(r)], from, |log| + 1);
  }

  lemma CompleteKeepsIndices(s: Rx)
    requires Indices(s) && s.ring.rptr != s.ring.wptr && s.ring.tds[s.ring.rptr].length <= s.ring.pageSize
    ensures Indices(Next(s, Complete)) && Next(s, Complete).Handled() == s.Handled()
  {
    SlotsDiffer(|s.completed|, s.Posted(), s.ring.depth);
    AdvanceSlot(|s.completed|, s.ring.depth);
  }

  lemma CompleteKeepsInv(s: Rx)
    requires Inv(s) && s.ring.rptr != s.ring.wptr && s.ring.tds[s.ring.rptr].length <= s.ring.pageSize
    ensures Inv(Next(s, Complete))
  {
    CompleteKeepsIndices(s);
    CompleteKeeps(s.ring, s.completed, s.Handled());
  }

  lemma PokeByteKeepsInv(s: Rx, slot: nat, off: nat, b: byte)
    requires Inv(s) && slot < s.ring.depth && off < s.ring.pageSize && s.ring.DeviceOwns(slot)
    ensures Inv(Next(s, PokeByte(slot, off, b)))
  {
    HandledNotOwned(s);
    KeepsPutByte(s.ring, s.completed, s.Handled(), |s.completed|, slot, off, b);
  }

  lemma PokeTdKeepsInv(s: Rx, slot: nat, td: Td)
    requires Inv(s) && slot < s.ring.depth && s.ring.DeviceOwns(slot)
    ensures Inv(Next(s, PokeTd(slot, td)))
  {
    HandledNotOwned(s);
    NextNotOwned(s.ring, |s.completed|, s.Posted());
    KeepsPutTd(s.ring, s.completed, s.Handled(), |s.completed|, slot, td);
  }

  lemma DeviceKeepsInv(s: Rx, a: Act)
    requires Inv(s) && a != Host
    ensures Inv(Next(s, a))
  {
    if Next(s, a) != s {
      match a
      case PokeByte(slot, off, b) => PokeByteKeepsInv(s, slot, off, b);
      case PokeTd(slot, td) => PokeTdKeepsInv(s, slot, td);
      case Complete => CompleteKeepsInv(s);
    }
  }

  lemma {:induction false} RunKeepsInv(s: Rx, acts: seq<Act>)
    requires Inv(s)
    ensures Inv(Run(s, acts))
    decreases |acts|
  {
    if acts != [] {
      if acts[0] == Host { HostKeepsInv(s); } else { DeviceKeepsInv(s, acts[0]); }
      RunKeepsInv(Next(s, acts[0]), acts[1..]);
    }
  }

  /** The unequal test of has_data is exact, except that it misses a completely full ring while a repost awaits
      its advance. */
  lemma HasDataMeans(s: Rx)
    requires Inv(s)
    ensures s.HasData() <==> 0 < |s.completed| - s.Handled() < s.ring.depth
    ensures |s.completed| - s.Handled() == s.ring.depth ==> s.pc.Finishing?
  {
    var h, taken, d := s.Handled(), |s.completed|, s.ring.depth;
    if taken - h < d {
      SlotsDiffer(h, taken, d);
    } else {
      SlotsDiffer(h + d, taken, d);
      assert Slot(h + d, d) == Slot(h, d);
    }
  }

  // The receive ring as a queue: nothing lost, doubled or reordered, no BUG_ON, and no page shared.
  ghost predicate Fifo(t: Rx) {
    && t.Typed()
    && t.pc != Bug
    && t.consumed <= t.completed
    && (t.pc == Idle ==> (t.HasData() <==> |t.consumed| < |t.completed|))
    && (t.pc.Reading? || t.pc.Copying? ==> |t.consumed| < |t.completed| && !t.ring.DeviceOwns(t.pc.idx))
    && (t.pc.Copying? ==> t.pc.got <= t.completed[|t.consumed|])
    && !t.ring.DeviceOwns(t.ring.wptr)
    && (t.pc.Checking? || t.pc.Publishing? ==> t.ring.tds[t.ring.wptr] == Td(t.ring.pageSize, 0))
    && (forall i :: |t.completed| <= i < t.Posted() ==> t.ring.DeviceOwns(Slot(i, t.ring.depth)))
  }

  lemma InvIsFifo(t: Rx)
    requires Inv(t)
    ensures Fifo(t)
  {
    HasDataMeans(t);
    HandledNotOwned(t);
    NextNotOwned(t.ring, |t.completed|, t.Posted());
    forall i | |t.completed| <= i < t.Posted() ensures t.ring.DeviceOwns(Slot(i, t.ring.depth)) {
      OwnedIs(t.ring, i, |t.completed|, t.Posted());
    }
  }

  /** Over every interleaving the ring is a queue of what the modem completed. */
  lemma RxRefinesFifo(s: Rx, acts: seq<Act>)
    requires Opened(s)
    ensures Fifo(Run(s, acts))
  {
    OpenedInv(s);
    RunKeepsInv(s, acts);
    InvIsFifo(Run(s, acts));
  }

  lemma {:induction false} RunConcat(s: Rx, a: seq<Act>, b: seq<Act>)
    requires s.Typed()
    ensures Run(s, a).Typed() && Run(s, a + b) == Run(Run(s, a), b)
    decreases |a|
  {
    if a == [] {
      assert a + b == b;
    } else {
      NextTyped(s, a[0]);
      RunConcat(Next(s, a[0]), a[1..], b);
      assert (a + b)[1..] == a[1..] + b;
    }
  }

  lemma RunOne(s: Rx, a: Act)
    requires s.Typed()
    ensures Run(s, [a]) == Next(s, a)
  {
    NextTyped(s, a);
    assert [a][1..] == [];
    assert Run(Next(s, a), []) == Next(s, a);
  }

  lemma RunStep(s: Rx, a: Act, acts: seq<Act>)
    requires s.Typed()
    ensures Next(s, a).Typed() && Run(s, [a] + acts) == Run(Next(s, a), acts)
  {
    NextTyped(s, a);
    assert ([a] + acts)[1..] == acts;
  }

  lemma EmptyNext(s: Rx)
    requires Inv(s) && s.ring.rptr != s.ring.wptr
    ensures var t := Next(s, PokeTd(s.ring.rptr, Td(0, 0)));
      Inv(t) && t == s.(ring := s.ring.PutTd(s.ring.rptr, Td(0, 0)))
  {
    SlotsDiffer(|s.completed|, s.Posted(), s.ring.depth);
    OwnedIs(s.ring, |s.completed|, |s.completed|, s.Posted());
    DeviceKeepsInv(s, PokeTd(s.ring.rptr, Td(0, 0)));
  }

  // The modem completes its next descriptor with an empty buffer.
  lemma CompleteEmpty(s: Rx)
    requires Inv(s) && s.ring.rptr != s.ring.wptr
    ensures var t := Run(s, [PokeTd(s.ring.rptr, Td(0, 0)), Complete]);
      && Inv(t) && t.pc == s.pc && t.lastHandled == s.lastHandled && t.ring.depth == s.ring.depth
      && t.completed == s.completed + [[]] && t.consumed == s.consumed
  {
    var poke := PokeTd(s.ring.rptr, Td(0, 0));
    EmptyNext(s);
    var t := Next(s, poke);
    CompleteKeepsInv(t);
    RunStep(s, poke, [Complete]);
    RunOne(t, Complete);
    assert [poke] + [Complete] == [poke, Complete];
  }

  lemma {:induction false} CompleteEmpties(s: Rx, n: nat) returns (acts: seq<Act>)
    requires Inv(s) && |s.completed| + n <= s.Posted()
    ensures var t := Run(s, acts);
      && Inv(t) && t.pc == s.pc && t.lastHandled == s.lastHandled && t.ring.depth == s.ring.depth
      && t.consumed == s.consumed && |t.completed| == |s.completed| + n
      && forall i :: |s.completed| <= i < |t.completed| ==> t.completed[i] == []
  {
    if n == 0 {
      return [];
    }
    acts := CompleteEmpties(s, n - 1);
    var more := CompleteOneMore(Run(s, acts));
    RunConcat(s, acts, more);
    acts := acts + more;
  }

  lemma CompleteOneMore(s: Rx) returns (acts: seq<Act>)
    requires Inv(s) && |s.completed| < s.Posted()
    ensures var t := Run(s, acts);
      && Inv(t) && t.pc == s.pc && t.lastHandled == s.lastHandled && t.ring.depth == s.ring.depth
      && t.completed == s.completed + [[]] && t.consumed == s.consumed
  {
    SlotsDiffer(|s.completed|, s.Posted(), s.ring.depth);
    CompleteEmpty(s);
    acts := [PokeTd(s.ring.rptr, Td(0, 0)), Complete];
  }

  // The host takes an empty buffer and reposts its page, up to the point where last_handled has to move.
  lemma RepostEmpty(s: Rx) returns (acts: seq<Act>)
    requires Inv(s) && s.pc == Idle && s.HasData() && s.completed[s.Handled()] == []
    ensures var t := Run(s, acts);
      && Inv(t) && t.pc.Finishing? && t.completed == s.completed && t.Handled() == s.Handled()
      && t.ring.depth == s.ring.depth
  {
    acts := [];
    var t := s;
    for i := 0 to 6
      invariant Inv(t) && Run(s, acts) == t && t.completed == s.completed && t.Handled() == s.Handled()
      invariant t.ring == s.ring || i > 3
      invariant t.ring.depth == s.ring.depth
      invariant match i case 0 => t == s case 1 => t.pc.Reading? case 2 => t.pc.Copying? case 3 => t.pc.Rewriting?
                case 4 => t.pc.Checking? case 5 => t.pc.Publishing? case _ => t.pc.Finishing?
    {
      HostKeepsInv(t);
      RunConcat(s, acts, [Host]);
      RunOne(t, Host);
      acts, t := acts + [Host], HostStep(t);
    }
  }

  // A completely full ring that has_data takes for an empty one.
  ghost predicate Missed(t: Rx) {
    Inv(t) && t.pc.Finishing? && |t.completed| - t.Handled() == t.ring.depth && !t.HasData()
  }

  lemma OneTooMany(t: Rx) returns (acts: seq<Act>)
    requires Inv(t) && t.pc.Finishing? && |t.completed| - t.Handled() == t.ring.depth - 1
    ensures Missed(Run(t, acts))
  {
    acts := CompleteOneMore(t);
    HasDataMeans(Run(t, acts));
  }

  /** The gap of has_data is met: with two or more descriptors, a run from an opened ring fills it completely while a
      repost awaits its advance, and the test then denies that there is data. */
  lemma FullRingMissed(s: Rx)
    requires Opened(s) && s.ring.depth >= 2
    ensures exists acts :: Missed(Run(s, acts))
  {
    OpenedInv(s);
    var fill := CompleteEmpties(s, s.ring.depth - 1);
    var filled := Run(s, fill);
    HasDataMeans(filled);
    var host := RepostEmpty(filled);
    RunConcat(s, fill, host);
    var last := OneTooMany(Run(filled, host));
    RunConcat(s, fill + host, last);
    assert Missed(Run(s, fill + host + last));
  }
}
