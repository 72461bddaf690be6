/** The driver's own ring routines, over a ring whose arrays live on the heap. */
module TdRing {
  import opened Bytes
  import opened Cyclic
  import opened RingMemory

  /** Pages for DMA: each allocation is a new address, and only a live one may be freed. */
  class DmaPool {
    var live: set<nat>
    var next: nat

    ghost predicate Valid()
      reads this
    {
      forall a :: a in live ==> a < next
    }

    constructor ()
      ensures Valid() && live == {}
    {
      live := {};
      next := 0;
    }

    method Alloc() returns (address: nat)
      requires Valid()
      modifies this
      ensures Valid() && address !in old(live) && live == old(live) + {address}
    {
      address := next;
      live := live + {address};
      next := next + 1;
    }

    method Free(address: nat)
      requires Valid() && address in live
      modifies this
      ensures Valid() && live == old(live) - {address}
    {
      live := live - {address};
    }
  }

  ghost predicate Distinct(s: seq<nat>) {
    forall i, j :: 0 <= i < j < |s| ==> s[i] != s[j]
  }

  ghost function Elements(s: seq<nat>): set<nat> {
    set a | a in s
  }

  lemma ElementsAppend(s: seq<nat>, a: nat)
    ensures Elements(s + [a]) == Elements(s) + {a}
  {}

  lemma {:induction false} DistinctCount(s: seq<nat>)
    requires Distinct(s)
    ensures |Elements(s)| == |s|
  {
    if s != [] {
      var n := |s| - 1;
      DistinctCount(s[..n]);
      ElementsAppend(s[..n], s[n]);
      assert s[..n] + [s[n]] == s;
    }
  }

  /** The constructor's allocation loop. */
  method AllocPages(pool: DmaPool, n: nat) returns (phys: seq<nat>)
    requires pool.Valid()
    modifies pool
    ensures pool.Valid() && |phys| == n && Distinct(phys)
    ensures pool.live == old(pool.live) + Elements(phys) && Elements(phys) !! old(pool.live)
  {
    phys := [];
    for i := 0 to n
      invariant pool.Valid() && |phys| == i && Distinct(phys)
      invariant pool.live == old(pool.live) + Elements(phys) && Elements(phys) !! old(pool.live)
    {
      var address := pool.Alloc();
      ElementsAppend(phys, address);
      phys := phys + [address];
    }
  }

  /** The destructor's loop. Free's requires is that no page is freed twice. */
  method FreePages(pool: DmaPool, phys: seq<nat>)
    requires pool.Valid() && Distinct(phys) && Elements(phys) <= pool.live
    modifies pool
    ensures pool.Valid() && pool.live == old(pool.live) - Elements(phys)
  {
    for i := 0 to |phys|
      invariant pool.Valid() && pool.live == old(pool.live) - Elements(phys[..i])
    {
      assert phys[i] in Elements(phys) && phys[i] !in phys[..i];
      pool.Free(phys[i]);
      ElementsAppend(phys[..i], phys[i]);
      assert phys[..i + 1] == phys[..i] + [phys[i]];
    }
    assert phys[..|phys|] == phys;
  }

  method Blank(depth: nat, pageSize: nat) returns (tds: array<Td>, pages: array<seq<byte>>)
    ensures fresh(tds) && fresh(pages) && tds.Length == depth && pages.Length == depth
    ensures forall i :: 0 <= i < depth ==> |pages[i]| == pageSize
  {
    tds := new Td[depth](_ => Td(0, 0));
    pages := new seq<byte>[depth](_ => Zeros(pageSize));
  }

  class HostRing {
    var depth: nat
    var lastHandled: nat
    var pageSize: nat
    var tds: array<Td>
    var pages: array<seq<byte>>
    var phys: seq<nat>
    // The ring's words in the control page.
    var wptr: nat
    var rptr: nat

    constructor ()
      ensures Valid() && depth == 0 && fresh(tds) && fresh(pages)
    {
      depth, lastHandled, pageSize, wptr, rptr := 0, 0, 0, 0, 0;
      tds, pages, phys := new Td[0], new seq<byte>[0], [];
    }

    ghost function Mem(): RingMemory.Ring
      reads this, tds, pages
    {
      RingMemory.Ring(depth, pageSize, tds[..], pages[..], wptr, rptr)
    }

    ghost predicate Valid()
      reads this, tds, pages
    {
      && |phys| == depth
      && Distinct(phys)
      && (depth > 0 ==> Mem().WellFormed() && depth < 256 && lastHandled < depth)
    }

    ghost function Pages(): set<nat>
      reads this
    {
      Elements(phys)
    }

    lemma EmptyHasNoPages()
      requires Valid() && depth == 0
      ensures Pages() == {}
    {}

    /** td_ring_create; opening is what the ring-open command returned. The BUG_ONs are its requires. */
    method Create(pool: DmaPool, depth: nat, pageSize: nat, opening: int) returns (ret: int)
      requires pool.Valid() && this.depth == 0
      requires (depth == 0 || PowerOfTwo(depth)) && depth < 256 && pageSize <= TD_MAX_PAGE_SIZE
      modifies this, pool
      ensures Valid() && pool.Valid() && fresh(tds) && fresh(pages)
      ensures this.depth == depth && this.pageSize == pageSize && lastHandled == wptr == rptr == 0
      ensures pool.live == old(pool.live) + Pages() && Pages() !! old(pool.live) && |Pages()| == depth
      ensures ret == opening
    {
      this.depth, this.pageSize, lastHandled := depth, pageSize, 0;
      phys := AllocPages(pool, depth);
      tds, pages := Blank(depth, pageSize);
      DistinctCount(phys);
      wptr, rptr := 0, 0;
      ret := opening;
    }

    /** td_ring_destroy: an empty ring only earns a warning. */
    method Destroy(pool: DmaPool)
      requires Valid() && pool.Valid() && Pages() <= pool.live
      modifies this, pool
      ensures Valid() && pool.Valid() && depth == 0 && Pages() == {}
      ensures tds == old(tds) && pages == old(pages)
      ensures pool.live == old(pool.live) - old(Pages())
    {
      if depth == 0 {
        return;
      }
      FreePages(pool, phys);
      phys := [];
      depth := 0;
    }

    // The three accesses of td_ring_write and td_ring_read: to the page, to the descriptor, to the write pointer.

    method PutByte(off: nat, b: byte)
      requires Valid() && depth > 0 && off < pageSize
      modifies pages
      ensures Valid() && Mem() == old(Mem()).PutByte(wptr, off, b)
    {
      pages[wptr] := pages[wptr][off := b];
    }

    method PutTd(td: Td)
      requires Valid() && depth > 0
      modifies tds
      ensures Valid() && Mem() == old(Mem()).PutTd(wptr, td)
    {
      tds[wptr] := td;
    }

    method Publish()
      requires Valid() && depth > 0
      modifies this`wptr
      ensures Valid() && Mem() == old(Mem()).Publish()
    {
      wptr := Advance(wptr, depth);
    }

    /** The masked test decides whether the modem owns all descriptors but one. */
    method Full() returns (full: bool)
      requires Valid() && depth > 0
      ensures full <==> Distance(rptr, wptr, depth) == depth - 1
      ensures full == Mem().Full()
    {
      FullIs(Mem());
      full := Advance(wptr, depth) == rptr;
    }

    /** td_ring_read while the modem rests: an empty ring only earns a warning. Its BUG_ON is the last requires. */
    method Read()
      requires Valid() && (depth > 0 ==> !Mem().Full())
      modifies this`wptr, tds
      ensures Valid() && Mem() == if depth > 0 then old(Mem()).Reposted() else old(Mem())
      ensures depth > 0 ==> tds[..] == old(tds[..])[old(wptr) := Td(pageSize, 0)] && wptr == (old(wptr) + 1) % depth
    {
      if depth == 0 {
        return;
      }
      MaskIsModulo(depth);
      PutTd(Td(pageSize, 0));
      Publish();
    }
  }
}
