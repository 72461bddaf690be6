/** The loop of qp_start that posts the receive descriptors, while the modem may already be completing them. */
module RxFill {
  import opened Bytes
  import opened Cyclic
  import opened RingMemory
  import opened RxRing

  datatype FillPc = Testing | Reposting | Verifying | Exposing | Done | Failed

  // rx is the ring the loop works on, with an idle host; posted counts the loop's rounds.
  datatype Fill = Fill(rx: Rx, pc: FillPc, posted: nat)

  function LoopStep(f: Fill): Fill
    requires f.rx.Typed()
  {
    var ring := f.rx.ring;
    match f.pc
    case Testing => f.(pc := if ring.Full() then Done else Reposting)
    case Reposting => f.(rx := f.rx.(ring := ring.PutTd(ring.wptr, Td(ring.pageSize, 0))), pc := Verifying)
    case Verifying => f.(pc := if ring.Full() then Failed else Exposing)
    case Exposing => f.(rx := f.rx.(ring := ring.Publish()), posted := f.posted + 1, pc := Testing)
    case _ => f
  }

  function FillNext(f: Fill, a: Act): (t: Fill)
    requires f.rx.Typed()
    ensures t.rx.Typed()
  {
    if f.pc == Done || f.pc == Failed then f
    else if a == Host then LoopStep(f)
    else
      NextTyped(f.rx, a);
      f.(rx := Next(f.rx, a))
  }

  ghost function FillRun(f: Fill, acts: seq<Act>): (t: Fill)
    requires f.rx.Typed()
    ensures t.rx.Typed()
    decreases |acts|
  {
    if acts == [] then f else FillRun(FillNext(f, acts[0]), acts[1..])
  }

  // A ring as it was created.
  ghost predicate Created(f: Fill) {
    && f.rx.Typed() && f.rx.pc == Idle && f.rx.lastHandled == 0 && f.rx.consumed == [] && f.rx.completed == []
    && f.rx.ring.rptr == f.rx.ring.wptr == 0 && f.pc == Testing && f.posted == 0
  }

  ghost predicate FillInv(f: Fill) {
    && f.rx.Typed() && f.rx.pc == Idle && f.rx.lastHandled == 0 && f.rx.consumed == []
    && f.rx.ring.rptr == Slot(|f.rx.completed|, f.rx.ring.depth) && f.rx.ring.wptr == Slot(f.posted, f.rx.ring.depth)
    && |f.rx.completed| <= f.posted < |f.rx.completed| + f.rx.ring.depth
    && match f.pc {
         case Testing => true
         case Done => f.posted == |f.rx.completed| + f.rx.ring.depth - 1
         case Failed => false
         case _ => f.posted + 1 < |f.rx.completed| + f.rx.ring.depth
       }
  }

  lemma FullCount(f: Fill)
    requires FillInv(f)
    ensures f.rx.ring.Full() <==> f.posted == |f.rx.completed| + f.rx.ring.depth - 1
  {
    FullIs(f.rx.ring);
    DistanceIs(|f.rx.completed|, f.posted - |f.rx.completed|, f.rx.ring.depth);
  }

  lemma FillNextKeepsInv(f: Fill, a: Act)
    requires FillInv(f)
    ensures FillInv(FillNext(f, a))
  {
    var k, p, d := |f.rx.completed|, f.posted, f.rx.ring.depth;
    FullCount(f);
    AdvanceSlot(p, d);
    AdvanceSlot(k, d);
    SlotsDiffer(k, p, d);
  }

  /** The BUG_ON cannot fire inside the loop, however many descriptors are completed meanwhile. */
  lemma {:induction false} FillKeepsInv(f: Fill, acts: seq<Act>)
    requires FillInv(f)
    ensures FillInv(FillRun(f, acts))
    ensures FillRun(f, acts).rx.ring.depth == f.rx.ring.depth
    decreases |acts|
  {
    if acts != [] {
      FillNextKeepsInv(f, acts[0]);
      FillKeepsInv(FillNext(f, acts[0]), acts[1..]);
    }
  }

  ghost predicate Undisturbed(acts: seq<Act>) {
    forall a :: a in acts ==> a == Host
  }

  // A host left alone with a full ring runs into the BUG_ON, or reads past the page before that.
  lemma CopyingFails(s: Rx) returns (acts: seq<Act>)
    requires s.Typed() && s.pc.Copying? && s.ring.Full()
    ensures Undisturbed(acts) && Run(s, acts).pc == Bug
    decreases s.ring.pageSize - |s.pc.got|
  {
    var t := HostStep(s);
    NextTyped(s, Host);
    if t.pc.Rewriting? {
      var u := HostStep(t);
      RunStep(s, Host, [Host, Host]);
      RunStep(t, Host, [Host]);
      RunOne(u, Host);
      acts := [Host] + [Host, Host];
      assert [Host] + [Host] == [Host, Host];
    } else if t.pc == Bug {
      RunOne(s, Host);
      acts := [Host];
    } else {
      acts := CopyingFails(t);
      RunStep(s, Host, acts);
      acts := [Host] + acts;
    }
  }

  lemma PollFails(s: Rx) returns (acts: seq<Act>)
    requires s.Typed() && s.pc == Idle && s.HasData() && s.ring.Full()
    ensures Undisturbed(acts) && Run(s, acts).pc == Bug
  {
    var t := HostStep(s);
    NextTyped(s, Host);
    NextTyped(t, Host);
    acts := CopyingFails(HostStep(t));
    RunStep(t, Host, acts);
    RunStep(s, Host, [Host] + acts);
    acts := [Host] + ([Host] + acts);
  }

  // What was completed earlier has no influence on what happens next.
  lemma {:induction false} PastIsPast(s: Rx, past: seq<seq<byte>>, acts: seq<Act>)
    requires s.Typed()
    ensures Run(s.(completed := past + s.completed), acts)
         == Run(s, acts).(completed := past + Run(s, acts).completed)
    decreases |acts|
  {
    if acts != [] {
      var a, t := acts[0], s.(completed := past + s.completed);
      NextTyped(s, a);
      NextTyped(t, a);
      if a == Complete && Next(s, a) != s {
        assert past + s.completed + [Received(s.ring)] == past + (s.completed + [Received(s.ring)]);
      }
      assert Next(t, a) == Next(s, a).(completed := past + Next(s, a).completed);
      PastIsPast(Next(s, a), past, acts[1..]);
    }
  }

  /** After a fill with a multiple of depth completions the pointers look untouched: nothing fails, but what was
      completed during the fill is never delivered. */
  lemma WholeTurnsAreLost(f: Fill, acts: seq<Act>)
    requires FillInv(f) && f.pc == Done && |f.rx.completed| % f.rx.ring.depth == 0
    ensures var k, t := |f.rx.completed|, Run(f.rx, acts);
      t.pc != Bug && k <= |t.completed| && t.completed[..k] == f.rx.completed && t.consumed <= t.completed[k..]
  {
    var past, s, d := f.rx.completed, f.rx.(completed := []), f.rx.ring.depth;
    SlotIsModulo(|past|, d);
    DistanceIs(|past|, d - 1, d);
    RxRefinesFifo(s, acts);
    assert past + s.completed == past;
    PastIsPast(s, past, acts);
  }

  lemma DoneIsFull(f: Fill)
    requires FillInv(f) && f.pc == Done
    ensures f.rx.ring.Full()
    ensures f.rx.HasData() <==> |f.rx.completed| % f.rx.ring.depth != 0
  {
    FullCount(f);
    SlotIsModulo(|f.rx.completed|, f.rx.ring.depth);
  }

  lemma LossIsNoFifo(s: Rx)
    requires s.Typed() && s.pc == Idle && !s.HasData() && |s.consumed| < |s.completed|
    ensures exists acts :: !Fifo(Run(s, acts))
  {
    assert Run(s, []) == s;
    assert !Fifo(Run(s, []));
  }

  /** What k completions during the fill do to every later run: some run fails exactly if k is not a multiple of depth,
      an undisturbed poll among them, and the ring is a queue on all runs exactly if k is 0. */
  lemma FillRace(f: Fill, fill: seq<Act>)
    requires Created(f) && FillRun(f, fill).pc == Done
    ensures var s := FillRun(f, fill).rx;
      && ((exists acts :: Run(s, acts).pc == Bug) <==> |s.completed| % f.rx.ring.depth != 0)
      && (|s.completed| % f.rx.ring.depth != 0 ==> exists acts :: Undisturbed(acts) && Run(s, acts).pc == Bug)
      && ((forall acts :: Fifo(Run(s, acts))) <==> s.completed == [])
  {
    FillKeepsInv(f, fill);
    var done := FillRun(f, fill);
    var s := done.rx;
    DoneIsFull(done);
    if s.HasData() {
      var acts := PollFails(s);
      assert Undisturbed(acts) && Run(s, acts).pc == Bug && !Fifo(Run(s, acts));
    } else {
      forall acts ensures Run(s, acts).pc != Bug {
        WholeTurnsAreLost(done, acts);
      }
      if s.completed == [] {
        forall acts ensures Fifo(Run(s, acts)) {
          UndisturbedFill(done);
          RxRefinesFifo(s, acts);
        }
      } else {
        LossIsNoFifo(s);
      }
    }
  }

  lemma UndisturbedFill(f: Fill)
    requires FillInv(f) && f.pc == Done && f.rx.completed == []
    ensures Opened(f.rx)
  {
    DistanceIs(0, f.rx.ring.depth - 1, f.rx.ring.depth);
  }

  lemma FillUnfold(f: Fill, acts: seq<Act>, t: Fill, rest: seq<Act>)
    requires f.rx.Typed() && acts != [] && t == FillNext(f, acts[0]) && rest == acts[1..]
    ensures FillRun(f, acts) == FillRun(t, rest)
  {}

  lemma FirstOfBoth(a: seq<Act>, b: seq<Act>)
    requires a != []
    ensures (a + b)[0] == a[0] && (a + b)[1..] == a[1..] + b
  {}

  lemma {:induction false} FillConcat(f: Fill, a: seq<Act>, b: seq<Act>)
    requires f.rx.Typed()
    ensures FillRun(f, a + b) == FillRun(FillRun(f, a), b)
    decreases |a|
  {
    if a == [] {
      assert a + b == b;
    } else {
      var t, rest := FillNext(f, a[0]), a[1..];
      FirstOfBoth(a, b);
      FillUnfold(f, a + b, t, rest + b);
      FillUnfold(f, a, t, rest);
      FillConcat(t, rest, b);
    }
  }

  lemma FillOne(f: Fill, a: Act, acts: seq<Act>)
    requires f.rx.Typed()
    ensures FillRun(f, acts + [a]) == FillNext(FillRun(f, acts), a)
  {
    FillConcat(f, acts, [a]);
    var t := FillRun(f, acts);
    assert [a][1..] == [];
    assert FillRun(FillNext(t, a), []) == FillNext(t, a);
  }

  // One round of the loop, undisturbed.
  lemma PostOne(f: Fill, acts: seq<Act>) returns (more: seq<Act>)
    requires f.rx.Typed() && FillInv(FillRun(f, acts))
    requires FillRun(f, acts).pc == Testing && !FillRun(f, acts).rx.ring.Full()
    ensures var s, t := FillRun(f, acts), FillRun(f, more);
      && FillInv(t) && t.pc == Testing && t.posted == s.posted + 1 && t.rx.completed == s.rx.completed
      && t.rx.ring.depth == s.rx.ring.depth
      && (s.rx.ring.rptr == s.rx.ring.wptr ==> t.rx.ring.tds[t.rx.ring.rptr].length == t.rx.ring.pageSize)
  {
    more := acts;
    var s := FillRun(f, acts);
    for i := 0 to 4
      invariant var t := FillRun(f, more);
        && FillInv(t) && t.rx.completed == s.rx.completed && t.rx.ring.depth == s.rx.ring.depth
        && t.rx.ring.rptr == s.rx.ring.rptr && t.rx.ring.pageSize == s.rx.ring.pageSize
        && (i < 4 ==> t.rx.ring.wptr == s.rx.ring.wptr)
        && (i > 1 ==> t.rx.ring.tds[s.rx.ring.wptr].length == s.rx.ring.pageSize)
        && t.posted == s.posted + (if i < 4 then 0 else 1)
        && t.pc == (match i case 1 => Reposting case 2 => Verifying case 3 => Exposing case _ => Testing)
    {
      FillNextKeepsInv(FillRun(f, more), Host);
      FillOne(f, Host, more);
      more := more + [Host];
    }
  }

  lemma FinishFill(f: Fill, acts: seq<Act>) returns (more: seq<Act>)
    requires f.rx.Typed() && FillInv(FillRun(f, acts)) && FillRun(f, acts).pc == Testing
    ensures FillRun(f, more).pc == Done && FillRun(f, more).rx.completed == FillRun(f, acts).rx.completed
    decreases |FillRun(f, acts).rx.completed| + FillRun(f, acts).rx.ring.depth - FillRun(f, acts).posted
  {
    var t := FillRun(f, acts);
    FullCount(t);
    if t.rx.ring.Full() {
      FillOne(f, Host, acts);
      more := acts + [Host];
    } else {
      more := PostOne(f, acts);
      more := FinishFill(f, more);
    }
  }

  /** Every number of completions can happen during a fill. */
  lemma {:induction false} FillRaceHappens(f: Fill, k: nat)
    requires Created(f) && f.rx.ring.depth >= 2
    ensures exists fill :: FillRun(f, fill).pc == Done && |FillRun(f, fill).rx.completed| == k
  {
    var acts := [];
    assert FillRun(f, []) == f;
    for i := 0 to k
      invariant var t := FillRun(f, acts);
        FillInv(t) && t.pc == Testing && t.posted == |t.rx.completed| == i && t.rx.ring.depth == f.rx.ring.depth
    {
      FullCount(FillRun(f, acts));
      acts := PostOne(f, acts);
      var t := FillRun(f, acts);
      SlotsDiffer(i, i + 1, t.rx.ring.depth);
      FillNextKeepsInv(t, Complete);
      FillOne(f, Complete, acts);
      acts := acts + [Complete];
    }
    acts := FinishFill(f, acts);
  }
}
