/** A transfer-descriptor ring as it lies in memory shared by the host and the modem. */
module RingMemory {
  import opened Bytes
  import opened Cyclic

  const TD_MAX_PAGE_SIZE := 16384

  datatype Td = Td(length: nat, flags: nat)

  datatype Ring = Ring(depth: nat, pageSize: nat, tds: seq<Td>, pages: seq<seq<byte>>, wptr: nat, rptr: nat) {

    ghost predicate WellFormed() {
      && PowerOfTwo(depth)
      && |tds| == depth && |pages| == depth
      && wptr < depth && rptr < depth
      && forall slot :: 0 <= slot < depth ==> |pages[slot]| == pageSize
    }

    // Either side sees masked indices only: the modem owns the descriptors from rptr up to wptr.
    predicate DeviceOwns(slot: nat)
      requires wptr < depth && rptr < depth && slot < depth
    {
      Distance(rptr, slot, depth) < Distance(rptr, wptr, depth)
    }

    predicate Full()
      requires depth > 0
    {
      Advance(wptr, depth) == rptr
    }

    function PutByte(slot: nat, off: nat, b: byte): Ring
      requires slot < |pages| && off < |pages[slot]|
    {
      this.(pages := pages[slot := pages[slot][off := b]])
    }

    function PutTd(slot: nat, td: Td): Ring
      requires slot < |tds|
    {
      this.(tds := tds[slot := td])
    }

    function Publish(): Ring
      requires depth > 0
    {
      this.(wptr := Advance(wptr, depth))
    }

    function Take(): Ring
      requires depth > 0
    {
      this.(rptr := Advance(rptr, depth))
    }

    // The descriptor and page at slot describe exactly this buffer.
    predicate Holds(slot: nat, buf: seq<byte>)
      requires slot < |tds| && slot < |pages|
    {
      tds[slot].length == |buf| <= |pages[slot]| && pages[slot][..|buf|] == buf
    }

    // What the host's td_ring_read does to the ring.
    function Reposted(): Ring
      requires depth > 0 && wptr < |tds|
    {
      PutTd(wptr, Td(pageSize, 0)).Publish()
    }
  }

  /** The masked test for a full ring: the modem owns all descriptors but one. */
  lemma FullIs(r: Ring)
    requires r.WellFormed()
    ensures r.Full() <==> Distance(r.rptr, r.wptr, r.depth) == r.depth - 1
  {
    MaskOfPowerOfTwo(r.depth, r.wptr + 1);
  }

  // Buffers from..upTo of a log still lie in the slots they were given.
  ghost predicate Keeps(r: Ring, log: seq<seq<byte>>, from: nat, upTo: nat)
    requires r.WellFormed() && upTo <= |log|
  {
    forall i :: from <= i < upTo ==> r.Holds(Slot(i, r.depth), log[i])
  }

  lemma KeepsPutTd(r: Ring, log: seq<seq<byte>>, from: nat, upTo: nat, slot: nat, td: Td)
    requires r.WellFormed() && upTo <= |log| && slot < r.depth
    requires Keeps(r, log, from, upTo)
    requires forall i :: from <= i < upTo ==> Slot(i, r.depth) != slot
    ensures Keeps(r.PutTd(slot, td), log, from, upTo)
  {
    forall i | from <= i < upTo ensures r.PutTd(slot, td).Holds(Slot(i, r.depth), log[i]) {
      assert r.Holds(Slot(i, r.depth), log[i]);
    }
  }

  lemma KeepsPutByte(r: Ring, log: seq<seq<byte>>, from: nat, upTo: nat, slot: nat, off: nat, b: byte)
    requires r.WellFormed() && upTo <= |log| && slot < r.depth && off < r.pageSize
    requires Keeps(r, log, from, upTo)
    requires forall i :: from <= i < upTo ==> Slot(i, r.depth) != slot
    ensures Keeps(r.PutByte(slot, off, b), log, from, upTo)
  {
    forall i | from <= i < upTo ensures r.PutByte(slot, off, b).Holds(Slot(i, r.depth), log[i]) {
      assert r.Holds(Slot(i, r.depth), log[i]);
    }
  }

  // Only the memory matters, not where the pointers stand.
  lemma KeepsMoved(r: Ring, r': Ring, log: seq<seq<byte>>, from: nat, upTo: nat)
    requires r.WellFormed() && r'.WellFormed() && upTo <= |log|
    requires r'.depth == r.depth && r'.tds == r.tds && r'.pages == r.pages
    requires Keeps(r, log, from, upTo)
    ensures Keeps(r', log, from, upTo)
  {
    forall i | from <= i < upTo ensures r'.Holds(Slot(i, r.depth), log[i]) {
      assert r.Holds(Slot(i, r.depth), log[i]);
    }
  }

  lemma KeepsExtend(r: Ring, log: seq<seq<byte>>, from: nat, buf: seq<byte>)
    requires r.WellFormed()
    requires Keeps(r, log, from, |log|)
    requires r.Holds(Slot(|log|, r.depth), buf)
    ensures Keeps(r, log + [buf], from, |log| + 1)
  {
    forall i | from <= i < |log| + 1 ensures r.Holds(Slot(i, r.depth), (log + [buf])[i]) {
      if i < |log| {
        assert r.Holds(Slot(i, r.depth), log[i]);
      }
    }
  }

  // The window of one side's slots that no other true index shares.
  lemma SlotsApart(from: nat, upTo: nat, other: nat, depth: nat)
    requires depth > 0 && upTo <= other < from + depth
    ensures forall i :: from <= i < upTo ==> Slot(i, depth) != Slot(other, depth)
  {
    forall i | from <= i < upTo ensures Slot(i, depth) != Slot(other, depth) {
      SlotsDiffer(i, other, depth);
    }
  }

  /** A slot behind rptr whose reuse has not been published is never the modem's. */
  lemma NotOwned(r: Ring, i: nat, taken: nat, posted: nat)
    requires r.WellFormed()
    requires r.rptr == Slot(taken, r.depth) && r.wptr == Slot(posted, r.depth)
    requires i < taken <= posted <= i + r.depth && posted < taken + r.depth
    ensures !r.DeviceOwns(Slot(i, r.depth))
  {
    DistanceIs(taken, posted - taken, r.depth);
    if taken - i < r.depth {
      DistanceIs(i, taken - i, r.depth);
    }
  }

  /** Nor is the slot the host fills next. */
  lemma NextNotOwned(r: Ring, taken: nat, posted: nat)
    requires r.WellFormed()
    requires r.rptr == Slot(taken, r.depth) && r.wptr == Slot(posted, r.depth)
    requires taken <= posted < taken + r.depth
    ensures !r.DeviceOwns(r.wptr)
  {}

  lemma OwnedIs(r: Ring, i: nat, taken: nat, posted: nat)
    requires r.WellFormed()
    requires r.rptr == Slot(taken, r.depth) && r.wptr == Slot(posted, r.depth)
    requires taken <= i < posted < taken + r.depth
    ensures r.DeviceOwns(Slot(i, r.depth))
  {
    DistanceIs(taken, posted - taken, r.depth);
    DistanceIs(taken, i - taken, r.depth);
  }
}
