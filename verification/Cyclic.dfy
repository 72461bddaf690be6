/** Masked ring indices: `(i + 1) & (depth - 1)`, and what an equality test on them can decide. */
module Cyclic {

  function BitAnd(a: nat, b: nat): (r: nat)
    ensures r <= a && r <= b
  {
    if a == 0 || b == 0 then 0
    else (if a % 2 == 1 && b % 2 == 1 then 1 else 0) + 2 * BitAnd(a / 2, b / 2)
  }

  // What the ring constructor insists on, together with depth != 0.
  predicate PowerOfTwo(depth: nat) {
    depth > 0 && BitAnd(depth, depth - 1) == 0
  }

  function Advance(i: nat, depth: nat): (r: nat)
    requires depth > 0
    ensures r < depth
  {
    BitAnd(i + 1, depth - 1)
  }

  /** The place of the i-th buffer, counting without wrap-around: i modulo depth. */
  function Slot(i: nat, depth: nat): (s: nat)
    requires depth > 0
    ensures s < depth
    decreases i
  {
    if i < depth then i else Slot(i - depth, depth)
  }

  lemma MulAtLeast(k: int, d: int)
    requires d > 0
    ensures k >= 1 ==> k * d >= d
    ensures k <= -1 ==> k * d <= -d
  {}

  lemma ModShift(x: int, q: int, r: int, d: int)
    requires d > 0 && x == q * d + r && 0 <= r < d
    ensures x / d == q
  {
    var k := x / d - q;
    assert k * d == x / d * d - q * d;
    assert -d < k * d < d;
    MulAtLeast(k, d);
  }

  lemma {:induction false} SlotIsModulo(i: nat, depth: nat)
    requires depth > 0
    ensures Slot(i, depth) == i % depth
    decreases i
  {
    if i >= depth {
      SlotIsModulo(i - depth, depth);
      var q := (i - depth) / depth;
      assert (q + 1) * depth == q * depth + depth;
      ModShift(i, q + 1, (i - depth) % depth, depth);
    } else {
      ModShift(i, 0, i, depth);
    }
  }

  lemma {:induction false} BitAndSelf(a: nat)
    ensures BitAnd(a, a) == a
  {
    if a > 0 {
      BitAndSelf(a / 2);
    }
  }

  lemma OddIsNoPower(depth: nat)
    requires depth > 1 && depth % 2 == 1
    ensures BitAnd(depth, depth - 1) > 0
  {
    assert (depth - 1) / 2 == depth / 2;
    BitAndSelf(depth / 2);
  }

  lemma {:induction false} SlotHalves(n: nat, e: nat)
    requires e > 0
    ensures Slot(n, 2 * e) == n % 2 + 2 * Slot(n / 2, e)
    decreases n
  {
    if n >= 2 * e {
      SlotHalves(n - 2 * e, e);
      assert (n - 2 * e) / 2 == n / 2 - e;
    }
  }

  lemma {:induction false} MaskOfPowerOfTwo(depth: nat, n: nat)
    requires PowerOfTwo(depth)
    ensures BitAnd(n, depth - 1) == Slot(n, depth)
    decreases depth
  {
    if depth == 1 {
      SlotOfOne(n);
    } else if depth % 2 == 1 {
      OddIsNoPower(depth);
      assert false;
    } else {
      var e := depth / 2;
      assert (depth - 1) / 2 == e - 1 && (depth - 1) % 2 == 1;
      assert BitAnd(depth, depth - 1) == 2 * BitAnd(e, e - 1);
      MaskOfPowerOfTwo(e, n / 2);
      SlotHalves(n, e);
    }
  }

  lemma {:induction false} SlotOfOne(n: nat)
    ensures Slot(n, 1) == 0
  {
    if n > 0 {
      SlotOfOne(n - 1);
    }
  }

  /** The constructor's power-of-two check is exactly what makes masking a reduction modulo depth. */
  lemma MaskIsModulo(depth: nat)
    requires depth > 0
    ensures PowerOfTwo(depth) <==> forall n: nat :: BitAnd(n, depth - 1) == n % depth
  {
    if PowerOfTwo(depth) {
      forall n: nat ensures BitAnd(n, depth - 1) == n % depth {
        MaskOfPowerOfTwo(depth, n);
        SlotIsModulo(n, depth);
      }
    } else {
      assert depth % depth == 0;
      assert BitAnd(depth, depth - 1) != depth % depth;
    }
  }

  lemma {:induction false} SlotStep(i: nat, depth: nat)
    requires depth > 0
    ensures Slot(i + 1, depth) == if Slot(i, depth) + 1 == depth then 0 else Slot(i, depth) + 1
    decreases i
  {
    if i >= depth {
      SlotStep(i - depth, depth);
    }
  }

  lemma AdvanceSlot(i: nat, depth: nat)
    requires PowerOfTwo(depth)
    ensures Advance(Slot(i, depth), depth) == Slot(i + 1, depth)
  {
    MaskOfPowerOfTwo(depth, Slot(i, depth) + 1);
    SlotStep(i, depth);
  }

  /** How far a masked index has to move up to reach another. */
  function Distance(from: nat, to: nat, depth: nat): (r: nat)
    requires from < depth && to < depth
    ensures r < depth
  {
    if from <= to then to - from else to + depth - from
  }

  /** Masked indices determine the true distance as long as it is below depth. */
  lemma {:induction false} DistanceIs(a: nat, n: nat, depth: nat)
    requires n < depth
    ensures Distance(Slot(a, depth), Slot(a + n, depth), depth) == n
  {
    if n > 0 {
      DistanceIs(a, n - 1, depth);
      SlotStep(a + n - 1, depth);
    }
  }

  /** So an equality test on them is exact within that bound. */
  lemma SlotsDiffer(a: nat, b: nat, depth: nat)
    requires depth > 0 && a <= b < a + depth
    ensures Slot(a, depth) == Slot(b, depth) <==> a == b
  {
    DistanceIs(a, b - a, depth);
  }
}
