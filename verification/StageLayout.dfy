/**
 The static index: a sorted array laid out in stages, like the levels of a B-tree.  Of the first
 `n` items, every `(step + 1)`-th goes to an upper stage and the rest make up the last one.
 */
module StageLayout {

  // ---------------------------------------------------------------- sizes

  /** How many of `n` items belong to stages `0..k` when there are stages `0..last`. */
  function ItemsUpTo(n: nat, steps: seq<nat>, last: nat, k: nat): nat
    requires k <= last <= |steps|
    decreases last - k
  {
    if k == last then n else ItemsUpTo(n, steps, last, k + 1) / (steps[k] + 1)
  }

  lemma QuotientAtMost(n: nat, d: nat)
    requires d >= 1
    ensures n / d <= n
  {
  }

  /** The stage ends of `n` items in stages `0..last`. */
  function EndsOf(n: nat, steps: seq<nat>, last: nat): (ends: seq<nat>)
    requires last <= |steps|
    ensures |ends| == last + 1
    ensures forall k :: 0 <= k <= last ==> ends[k] == ItemsUpTo(n, steps, last, k)
  {
    seq(last + 1, k requires 0 <= k <= last => ItemsUpTo(n, steps, last, k))
  }

  lemma UpperOf(items: nat, n: nat, steps: seq<nat>, last: nat, stage: nat)
    requires 1 <= stage <= last <= |steps| && items == ItemsUpTo(n, steps, last, stage)
    ensures items / (steps[stage - 1] + 1) == ItemsUpTo(n, steps, last, stage - 1) <= items
  {
    QuotientAtMost(items, steps[stage - 1] + 1);
  }

  /** Sizes first, from the last stage to the first; then their running sums. */
  method ComputeStageEnds(n: nat, stageEnds: array<nat>, steps: seq<nat>, nstages: nat)
    requires 1 <= nstages <= stageEnds.Length && nstages - 1 <= |steps|
    modifies stageEnds
    ensures stageEnds[..nstages] == EndsOf(n, steps, nstages - 1)
    ensures stageEnds[nstages..] == old(stageEnds[nstages..])
  {
    ghost var ends := EndsOf(n, steps, nstages - 1);
    var items := n;
    var stage := nstages - 1;
    while stage >= 1
      invariant 0 <= stage < nstages && items == ends[stage]
      invariant forall k :: stage < k < nstages ==> ends[k - 1] + stageEnds[k] == ends[k]
      invariant stageEnds[nstages..] == old(stageEnds[nstages..])
    {
      UpperOf(items, n, steps, nstages - 1, stage);
      var upperItems := items / (steps[stage - 1] + 1);
      stageEnds[stage] := items - upperItems;
      items := upperItems;
      stage := stage - 1;
    }
    stageEnds[0] := items;
    SumStageSizes(stageEnds, nstages, ends);
  }

  /** The second loop of `ComputeStageEnds`. */
  method SumStageSizes(stageEnds: array<nat>, nstages: nat, ghost ends: seq<nat>)
    requires 1 <= nstages == |ends| <= stageEnds.Length
    requires stageEnds[0] == ends[0]
    requires forall k :: 1 <= k < nstages ==> ends[k - 1] + stageEnds[k] == ends[k]
    modifies stageEnds
    ensures stageEnds[..nstages] == ends
    ensures stageEnds[nstages..] == old(stageEnds[nstages..])
  {
    var pos := 0;
    for stage := 0 to nstages
      invariant pos == if stage == 0 then 0 else ends[stage - 1]
      invariant forall k :: 0 <= k < stage ==> stageEnds[k] == ends[k]
      invariant forall k :: stage <= k < stageEnds.Length ==> stageEnds[k] == old(stageEnds[k])
    {
      stageEnds[stage] := stageEnds[stage] + pos;
      pos := stageEnds[stage];
    }
  }

  // ---------------------------------------------------------------- positions

  /** The slot of the `m`-th item (counted from 1) of stages `0..k`, read off the stage ends. */
  function PositionOf(m: nat, stageEnds: seq<nat>, steps: seq<nat>, k: nat): int
    requires k <= |steps| && k <= |stageEnds|
    decreases k
  {
    if k == 0 then m - 1
    else
      var d := steps[k - 1] + 1;
      if m % d == 0 then PositionOf(m / d, stageEnds, steps, k - 1)
      else stageEnds[k - 1] + (m - m / d) - 1
  }

  function IdxPosition(arrayIdx: nat, stageEnds: seq<nat>, steps: seq<nat>, nstages: nat): int
    requires 1 <= nstages <= |stageEnds| && nstages - 1 <= |steps|
  {
    PositionOf(arrayIdx + 1, stageEnds, steps, nstages - 1)
  }

  method GetIdxPosition(arrayIdx: nat, stageEnds: seq<nat>, steps: seq<nat>, nstages: nat) returns (pos: int)
    requires 1 <= nstages <= |stageEnds| && nstages - 1 <= |steps|
    ensures pos == IdxPosition(arrayIdx, stageEnds, steps, nstages)
  {
    var n: nat := arrayIdx + 1;
    var stage := nstages - 1;
    while stage >= 1 && n % (steps[stage - 1] + 1) == 0
      invariant 0 <= stage < nstages
      invariant PositionOf(arrayIdx + 1, stageEnds, steps, nstages - 1) == PositionOf(n, stageEnds, steps, stage)
      decreases stage
    {
      n := n / (steps[stage - 1] + 1);
      stage := stage - 1;
    }
    if stage >= 1 {
      pos := stageEnds[stage - 1] + (n - n / (steps[stage - 1] + 1)) - 1;
    } else {
      pos := n - 1;
    }
  }

  /** The slot of the `m`-th of `n` items of stages `0..k`. */
  function Slot(m: nat, n: nat, steps: seq<nat>, k: nat): int
    requires k <= |steps|
    decreases k
  {
    if k == 0 then m - 1
    else
      var d := steps[k - 1] + 1;
      if m % d == 0 then Slot(m / d, n / d, steps, k - 1) else n / d + (m - m / d) - 1
  }

  /** The item in a slot: an upper item in its own layout, or the `r`-th item that is not a multiple of the step. */
  function ItemAt(p: nat, n: nat, steps: seq<nat>, k: nat): nat
    requires k <= |steps|
    decreases k
  {
    if k == 0 then p + 1
    else
      var s := steps[k - 1];
      var d := s + 1;
      if p < n / d || s == 0 then d * ItemAt(p, n / d, steps, k - 1)
      else
        var r := p - n / d;
        r + r / s + 1
  }

  /** With the ends `ComputeStageEnds` leaves, an item goes to its slot. */
  lemma {:induction false} PositionIsSlot(m: nat, n: nat, stageEnds: seq<nat>, steps: seq<nat>, last: nat, k: nat)
    requires k <= last <= |steps| && last < |stageEnds|
    requires stageEnds[..last + 1] == EndsOf(n, steps, last)
    ensures PositionOf(m, stageEnds, steps, k) == Slot(m, ItemsUpTo(n, steps, last, k), steps, k)
    decreases k
  {
    if k > 0 {
      var d := steps[k - 1] + 1;
      assert ItemsUpTo(n, steps, last, k - 1) == ItemsUpTo(n, steps, last, k) / d;
      assert stageEnds[k - 1] == stageEnds[..last + 1][k - 1];
      PositionIsSlot(m / d, n, stageEnds, steps, last, k - 1);
    }
  }

  // ---------------------------------------------------------------- arithmetic

  lemma DivUnique(m: nat, d: nat, q: nat, t: nat)
    requires d >= 1 && m == q * d + t && t < d
    ensures m / d == q && m % d == t
  {
    var q' := m / d;
    assert m == q' * d + m % d;
    if q' < q {
      MulMonotone(q' + 1, q, d);
    } else if q' > q {
      MulMonotone(q + 1, q', d);
    }
  }

  lemma MulMonotone(a: nat, b: nat, d: nat)
    requires a <= b
    ensures a * d <= b * d
  {
  }

  lemma DivMonotone(a: nat, b: nat, d: nat)
    requires a <= b && d >= 1
    ensures a / d <= b / d
    ensures a - a / d <= b - b / d
    decreases b - a
  {
    if a < b {
      DivMonotone(a, b - 1, d);
      DivStep(b, d);
    }
  }

  lemma DivStep(b: nat, d: nat)
    requires b >= 1 && d >= 1
    ensures (b - 1) / d <= b / d <= (b - 1) / d + 1
  {
    var q, t := (b - 1) / d, (b - 1) % d;
    assert b - 1 == q * d + t;
    if t + 1 < d {
      DivUnique(b, d, q, t + 1);
    } else {
      assert (q + 1) * d == q * d + d;
      DivUnique(b, d, q + 1, 0);
    }
  }

  lemma MultipleOf(q: nat, d: nat)
    requires d >= 1
    ensures (d * q) % d == 0 && d * q / d == q
  {
    DivUnique(d * q, d, q, 0);
  }

  /** The items that are not multiples of `s + 1`, counted from 0: the `r`-th is `r + r / s + 1`. */
  lemma NonMultipleRank(m: nat, s: nat)
    requires m % (s + 1) != 0
    ensures s >= 1 && m - m / (s + 1) >= 1
    ensures var r := m - m / (s + 1) - 1; r + r / s + 1 == m
  {
    var d := s + 1;
    var q, t := m / d, m % d;
    assert m == q * d + t && q * d == q * s + q;
    assert s >= 1;
    var r := m - q - 1;
    assert r == q * s + (t - 1);
    DivUnique(r, s, q, t - 1);
  }

  lemma NonMultipleAt(r: nat, s: nat)
    requires s >= 1
    ensures var m := r + r / s + 1; m % (s + 1) != 0 && m - m / (s + 1) - 1 == r
  {
    var q, t := r / s, r % s;
    var m := r + q + 1;
    assert r == q * s + t && q * (s + 1) == q * s + q;
    assert m == q * (s + 1) + (t + 1);
    DivUnique(m, s + 1, q, t + 1);
  }

  lemma NonMultipleBefore(m: nat, d: nat)
    requires d >= 1 && m % d != 0
    ensures m >= 1 && (m - 1) / d == m / d
  {
    DivUnique(m - 1, d, m / d, m % d - 1);
  }

  /** A multiple among the first `n` items is an item of the upper stages. */
  lemma UpperItem(m: nat, n: nat, d: nat)
    requires d >= 1 && 1 <= m <= n && m % d == 0
    ensures 1 <= m / d <= n / d <= n && d * (m / d) == m
  {
    DivMonotone(m, n, d);
  }

  lemma UpperItemAt(q: nat, n: nat, d: nat)
    requires d >= 1 && 1 <= q <= n / d
    ensures 1 <= d * q <= n && (d * q) % d == 0 && d * q / d == q
  {
    MultipleOf(q, d);
    MulMonotone(q, n / d, d);
    assert n == (n / d) * d + n % d;
    MulMonotone(1, q, d);
  }

  /** Any other item is one of those left to the last stage. */
  lemma LowerItem(m: nat, n: nat, s: nat)
    requires 1 <= m <= n && m % (s + 1) != 0
    ensures s >= 1 && 1 <= m - m / (s + 1) <= n - n / (s + 1)
    ensures var r := m - m / (s + 1) - 1; r + r / s + 1 == m
  {
    NonMultipleRank(m, s);
    DivMonotone(m, n, s + 1);
  }

  lemma LowerItemAt(r: nat, n: nat, s: nat)
    requires s >= 1 && r < n - n / (s + 1)
    ensures var m := r + r / s + 1; 1 <= m <= n && m % (s + 1) != 0 && m - m / (s + 1) - 1 == r
  {
    NonMultipleAt(r, s);
    LowerItemFits(r + r / s + 1, r, n, s + 1);
  }

  lemma LowerItemFits(m: nat, r: nat, n: nat, d: nat)
    requires d >= 1 && m % d != 0 && m - m / d - 1 == r && r < n - n / d
    ensures 1 <= m <= n
  {
    if m > n {
      RanksRise(n, m, d);
    }
  }

  // ---------------------------------------------------------------- the layout is a bijection

  lemma UpperSlot(m: nat, n: nat, steps: seq<nat>, k: nat)
    requires 1 <= k <= |steps| && m % (steps[k - 1] + 1) == 0
    ensures Slot(m, n, steps, k) == Slot(m / (steps[k - 1] + 1), n / (steps[k - 1] + 1), steps, k - 1)
  {
  }

  lemma UpperItemInSlot(p: nat, n: nat, steps: seq<nat>, k: nat)
    requires 1 <= k <= |steps| && p < n / (steps[k - 1] + 1)
    ensures ItemAt(p, n, steps, k) == (steps[k - 1] + 1) * ItemAt(p, n / (steps[k - 1] + 1), steps, k - 1)
  {
  }

  lemma LowerSlot(m: nat, n: nat, steps: seq<nat>, k: nat)
    requires 1 <= k <= |steps| && 1 <= m <= n && m % (steps[k - 1] + 1) != 0
    ensures 0 <= Slot(m, n, steps, k) < n
    ensures ItemAt(Slot(m, n, steps, k), n, steps, k) == m
  {
    LowerItem(m, n, steps[k - 1]);
  }

  /** Every item goes to a slot within the array, and back. */
  lemma {:induction false} SlotInverse(m: nat, n: nat, steps: seq<nat>, k: nat)
    requires k <= |steps| && 1 <= m <= n
    ensures 0 <= Slot(m, n, steps, k) < n
    ensures ItemAt(Slot(m, n, steps, k), n, steps, k) == m
    decreases k
  {
    if k > 0 {
      var d := steps[k - 1] + 1;
      if m % d == 0 {
        UpperItem(m, n, d);
        UpperSlot(m, n, steps, k);
        SlotInverse(m / d, n / d, steps, k - 1);
        UpperItemInSlot(Slot(m / d, n / d, steps, k - 1), n, steps, k);
      } else {
        LowerSlot(m, n, steps, k);
      }
    }
  }

  /** Every slot holds an item, and the item goes to that slot. */
  lemma {:induction false} ItemInverse(p: nat, n: nat, steps: seq<nat>, k: nat)
    requires k <= |steps| && p < n
    ensures 1 <= ItemAt(p, n, steps, k) <= n
    ensures Slot(ItemAt(p, n, steps, k), n, steps, k) == p
    decreases k
  {
    if k > 0 {
      var s := steps[k - 1];
      if p < n / (s + 1) {
        ItemInverse(p, n / (s + 1), steps, k - 1);
        UpperItemAt(ItemAt(p, n / (s + 1), steps, k - 1), n, s + 1);
      } else {
        LowerItemAt(p - n / (s + 1), n, s);
      }
    }
  }

  /** The stage ends `ComputeStageEnds` leaves for `n` items. */
  predicate AreStageEnds(stageEnds: seq<nat>, n: nat, steps: seq<nat>, nstages: nat) {
    && 1 <= nstages <= |stageEnds| && nstages - 1 <= |steps|
    && stageEnds[..nstages] == EndsOf(n, steps, nstages - 1)
  }

  /** Some array index below `n` goes to slot `p`. */
  ghost predicate Occupied(p: nat, n: nat, stageEnds: seq<nat>, steps: seq<nat>, nstages: nat)
    requires 1 <= nstages <= |stageEnds| && nstages - 1 <= |steps|
  {
    exists i: nat :: i < n && IdxPosition(i, stageEnds, steps, nstages) == p
  }

  lemma IdxPositionIsSlot(i: nat, n: nat, stageEnds: seq<nat>, steps: seq<nat>, nstages: nat)
    requires AreStageEnds(stageEnds, n, steps, nstages)
    ensures IdxPosition(i, stageEnds, steps, nstages) == Slot(i + 1, n, steps, nstages - 1)
  {
    PositionIsSlot(i + 1, n, stageEnds, steps, nstages - 1, nstages - 1);
  }

  /**
   `GetIdxPosition`, with the ends `ComputeStageEnds` leaves for `n` items, maps the array indices
   0..n-1 one to one onto the slots 0..n-1.
   */
  lemma LayoutIsBijection(n: nat, stageEnds: seq<nat>, steps: seq<nat>, nstages: nat)
    requires AreStageEnds(stageEnds, n, steps, nstages)
    ensures forall i: nat :: i < n ==> 0 <= IdxPosition(i, stageEnds, steps, nstages) < n
    ensures forall i: nat, j: nat :: i < n && j < n && i != j ==>
              IdxPosition(i, stageEnds, steps, nstages) != IdxPosition(j, stageEnds, steps, nstages)
    ensures forall p: nat :: p < n ==> Occupied(p, n, stageEnds, steps, nstages)
  {
    forall i: nat | i < n
      ensures 0 <= IdxPosition(i, stageEnds, steps, nstages) < n
      ensures ItemAt(IdxPosition(i, stageEnds, steps, nstages), n, steps, nstages - 1) == i + 1
    {
      IdxPositionIsSlot(i, n, stageEnds, steps, nstages);
      SlotInverse(i + 1, n, steps, nstages - 1);
    }
    forall p: nat | p < n
      ensures Occupied(p, n, stageEnds, steps, nstages)
    {
      ItemInverse(p, n, steps, nstages - 1);
      var i: nat := ItemAt(p, n, steps, nstages - 1) - 1;
      IdxPositionIsSlot(i, n, stageEnds, steps, nstages);
    }
  }

  // ---------------------------------------------------------------- the layout is a sorted B-tree

  /** The stage an item goes to. */
  function StageOf(m: nat, steps: seq<nat>, k: nat): (stage: nat)
    requires k <= |steps|
    ensures stage <= k
    decreases k
  {
    if k > 0 && m % (steps[k - 1] + 1) == 0 then StageOf(m / (steps[k - 1] + 1), steps, k - 1) else k
  }

  /** An item lies in the block of its stage. */
  lemma {:induction false} SlotInStage(m: nat, n: nat, steps: seq<nat>, k: nat, last: nat, total: nat)
    requires k <= last <= |steps| && 1 <= m <= n && n == ItemsUpTo(total, steps, last, k)
    ensures var j := StageOf(m, steps, k);
            && Slot(m, n, steps, k) < ItemsUpTo(total, steps, last, j)
            && (j > 0 ==> ItemsUpTo(total, steps, last, j - 1) <= Slot(m, n, steps, k))
    decreases k
  {
    if k > 0 {
      var s := steps[k - 1];
      assert ItemsUpTo(total, steps, last, k - 1) == n / (s + 1);
      if m % (s + 1) == 0 {
        UpperItem(m, n, s + 1);
        SlotInStage(m / (s + 1), n / (s + 1), steps, k - 1, last, total);
      } else {
        LowerItem(m, n, s);
      }
    }
  }

  lemma MultiplesRise(m: nat, m': nat, d: nat)
    requires d >= 1 && m < m' && m % d == 0 && m' % d == 0
    ensures m / d < m' / d
  {
    assert m == d * (m / d) && m' == d * (m' / d);
    if m' / d <= m / d {
      MulMonotone(m' / d, m / d, d);
    }
  }

  lemma RanksRise(m: nat, m': nat, d: nat)
    requires d >= 1 && m < m' && m' % d != 0
    ensures m - m / d < m' - m' / d
  {
    NonMultipleBefore(m', d);
    DivMonotone(m, m' - 1, d);
  }

  /** Within a stage, items keep the order of the array. */
  lemma {:induction false} StageKeepsOrder(m: nat, m': nat, n: nat, steps: seq<nat>, k: nat)
    requires k <= |steps| && 1 <= m < m' <= n && StageOf(m, steps, k) == StageOf(m', steps, k)
    ensures Slot(m, n, steps, k) < Slot(m', n, steps, k)
    decreases k
  {
    if k > 0 {
      var d := steps[k - 1] + 1;
      if m % d == 0 {
        MultiplesRise(m, m', d);
        UpperItem(m, n, d);
        UpperItem(m', n, d);
        StageKeepsOrder(m / d, m' / d, n / d, steps, k - 1);
      } else {
        RanksRise(m, m', d);
      }
    }
  }

  /** Items of stages `0..j` are the multiples of this. */
  function Unit(steps: seq<nat>, j: nat, k: nat): (u: nat)
    requires j <= k <= |steps|
    ensures u >= 1
    decreases k
  {
    if j == k then 1 else
      var u := Unit(steps, j, k - 1);
      MulMonotone(1, steps[k - 1] + 1, u);
      (steps[k - 1] + 1) * u
  }

  lemma MultipleOfProduct(m: nat, d: nat, u: nat)
    requires d >= 1 && u >= 1
    ensures d * u >= 1
    ensures m % (d * u) == 0 <==> m % d == 0 && (m / d) % u == 0
  {
    MulMonotone(1, d, u);
    if m % (d * u) == 0 {
      var q := m / (d * u);
      assert m == (d * u) * q;
      assert (d * u) * q == d * (u * q);
      MultipleOf(u * q, d);
      MultipleOf(q, u);
    }
    if m % d == 0 && (m / d) % u == 0 {
      var q := m / d / u;
      assert m == d * (m / d) && m / d == u * q;
      assert d * (u * q) == (d * u) * q;
      MultipleOf(q, d * u);
    }
  }

  lemma {:induction false} StageAtMost(m: nat, steps: seq<nat>, j: nat, k: nat)
    requires j <= k <= |steps|
    ensures StageOf(m, steps, k) <= j <==> m % Unit(steps, j, k) == 0
    decreases k
  {
    if j < k {
      var d := steps[k - 1] + 1;
      MultipleOfProduct(m, d, Unit(steps, j, k - 1));
      StageAtMost(m / d, steps, j, k - 1);
    }
  }

  lemma Exchange(d: nat, e: nat, u: nat)
    ensures d * (e * u) == e * (d * u)
  {
    assert d * (e * u) == (d * e) * u;
    assert e * (d * u) == (d * e) * u;
  }

  lemma {:induction false} UnitStep(steps: seq<nat>, j: nat, k: nat)
    requires 1 <= j <= k <= |steps|
    ensures Unit(steps, j - 1, k) == (steps[j - 1] + 1) * Unit(steps, j, k)
    decreases k
  {
    if j < k {
      UnitStep(steps, j, k - 1);
      Exchange(steps[k - 1] + 1, steps[j - 1] + 1, Unit(steps, j, k - 1));
    }
  }

  /** The items of stage `j` strictly between `a` and `b`. */
  function StageBetween(a: nat, b: nat, steps: seq<nat>, j: nat, k: nat): set<nat>
    requires k <= |steps|
  {
    set m: nat | a < m < b && StageOf(m, steps, k) == j
  }

  /** `a` is 0, standing for the front of the array, or an item of the stages above `j`. */
  predicate Above(a: nat, steps: seq<nat>, j: nat, k: nat)
    requires k <= |steps|
  {
    a == 0 || StageOf(a, steps, k) < j
  }

  function Spaced(a: nat, u: nat, count: nat): set<nat> {
    set t: nat | 1 <= t <= count :: a + t * u
  }

  lemma {:induction false} SpacedSize(a: nat, u: nat, count: nat)
    requires u >= 1
    ensures |Spaced(a, u, count)| == count
  {
    if count > 0 {
      SpacedSize(a, u, count - 1);
      forall t: nat | 1 <= t <= count - 1
        ensures a + t * u < a + count * u
      {
        assert count * u == t * u + (count - t) * u;
        MulMonotone(1, count - t, u);
      }
      assert Spaced(a, u, count) == Spaced(a, u, count - 1) + {a + count * u};
    }
  }

  lemma ModShift(a: nat, x: nat, u: nat)
    requires u >= 1 && a % u == 0
    ensures (a + x) % u == x % u && (a + x) / u == a / u + x / u
  {
    assert a == (a / u) * u && x == (x / u) * u + x % u;
    assert (a / u + x / u) * u == (a / u) * u + (x / u) * u;
    DivUnique(a + x, u, a / u + x / u, x % u);
  }

  lemma QuotientBelow(x: nat, u: nat, s: nat)
    requires u >= 1
    ensures x < (s + 1) * u <==> x / u <= s
  {
    assert x == (x / u) * u + x % u;
    if x / u <= s {
      MulMonotone(x / u, s, u);
    } else {
      MulMonotone(s + 1, x / u, u);
    }
  }

  lemma SpacedMember(a: nat, u: nat, count: nat, m: nat)
    requires u >= 1
    ensures m in Spaced(a, u, count) <==> a < m && (m - a) % u == 0 && (m - a) / u <= count
  {
    if m in Spaced(a, u, count) {
      var t: nat :| 1 <= t <= count && m == a + t * u;
      DivUnique(t * u, u, t, 0);
      MulMonotone(1, t, u);
    }
    if a < m && (m - a) % u == 0 && (m - a) / u <= count {
      var t := (m - a) / u;
      assert m - a == t * u;
      assert 1 <= t <= count && m == a + t * u;
    }
  }

  /** Up to the next multiple of `(s + 1) * u` after the multiple `a`, the multiples of `u` are evenly spaced. */
  lemma MultiplesAfter(a: nat, m: nat, u: nat, s: nat)
    requires u >= 1 && (s + 1) * u >= 1 && a % ((s + 1) * u) == 0 && a < m < a + (s + 1) * u
    ensures m % ((s + 1) * u) != 0
    ensures m % u == 0 <==> m in Spaced(a, u, s)
  {
    var v := (s + 1) * u;
    ModShift(a, m - a, v);
    DivUnique(m - a, v, 0, m - a);
    MultipleOfMultiple(a, u, s);
    ModShift(a, m - a, u);
    QuotientBelow(m - a, u, s);
    SpacedMember(a, u, s, m);
  }

  lemma MultipleOfMultiple(a: nat, u: nat, s: nat)
    requires u >= 1 && (s + 1) * u >= 1 && a % ((s + 1) * u) == 0
    ensures a % u == 0
  {
    MultipleOfProduct(a, s + 1, u);
    var q := a / ((s + 1) * u);
    assert a == ((s + 1) * u) * q;
    assert ((s + 1) * u) * q == ((s + 1) * q) * u;
    DivUnique(a, u, (s + 1) * q, 0);
  }

  lemma StageBetweenSpaced(a: nat, b: nat, steps: seq<nat>, j: nat, k: nat, m: nat)
    requires 1 <= j <= k <= |steps| && Above(a, steps, j, k)
    requires b <= a + Unit(steps, j - 1, k)
    ensures m in StageBetween(a, b, steps, j, k) <==> m in Spaced(a, Unit(steps, j, k), steps[j - 1]) && m < b
  {
    var u, s := Unit(steps, j, k), steps[j - 1];
    UnitStep(steps, j, k);
    AboveIsMultiple(a, steps, j, k);
    StageAtMost(m, steps, j, k);
    StageAtMost(m, steps, j - 1, k);
    SpacedMember(a, u, s, m);
    if a < m < b {
      MultiplesAfter(a, m, u, s);
    }
  }

  lemma AboveIsMultiple(a: nat, steps: seq<nat>, j: nat, k: nat)
    requires 1 <= j <= k <= |steps|
    ensures Above(a, steps, j, k) <==> a % Unit(steps, j - 1, k) == 0
  {
    StageAtMost(a, steps, j - 1, k);
  }

  /** Nothing of the stages above `j` lies strictly between `a` and `b`. */
  predicate NoneAbove(a: nat, b: nat, steps: seq<nat>, j: nat, k: nat)
    requires k <= |steps|
  {
    forall m: nat :: a < m < b ==> StageOf(m, steps, k) >= j
  }

  /** The next item above stage `j` after `a` is one unit further on. */
  lemma NextAbove(a: nat, steps: seq<nat>, j: nat, k: nat)
    requires 1 <= j <= k <= |steps| && Above(a, steps, j, k)
    ensures StageOf(a + Unit(steps, j - 1, k), steps, k) < j
    ensures NoneAbove(a, a + Unit(steps, j - 1, k), steps, j, k)
  {
    var v := Unit(steps, j - 1, k);
    AboveIsMultiple(a, steps, j, k);
    ModShift(a, v, v);
    DivUnique(v, v, 1, 0);
    StageAtMost(a + v, steps, j - 1, k);
    forall m: nat | a < m < a + v
      ensures StageOf(m, steps, k) >= j
    {
      StageAtMost(m, steps, j - 1, k);
      ModShift(a, m - a, v);
      DivUnique(m - a, v, 0, m - a);
    }
  }

  /** All evenly spaced places lie before the next item above. */
  lemma SpacedBefore(a: nat, u: nat, s: nat, m: nat)
    requires u >= 1 && m in Spaced(a, u, s)
    ensures m < a + (s + 1) * u
  {
    SpacedMember(a, u, s, m);
    QuotientBelow(m - a, u, s);
  }

  /**
   Between two consecutive items of the stages above `j`, and before the first of them, lie exactly
   `steps[j - 1]` items of stage `j`.
   */
  lemma StepItemsBetween(a: nat, b: nat, steps: seq<nat>, j: nat, k: nat)
    requires 1 <= j <= k <= |steps| && a < b
    requires Above(a, steps, j, k) && StageOf(b, steps, k) < j && NoneAbove(a, b, steps, j, k)
    ensures |StageBetween(a, b, steps, j, k)| == steps[j - 1]
  {
    var u, s := Unit(steps, j, k), steps[j - 1];
    NextAbove(a, steps, j, k);
    assert b == a + Unit(steps, j - 1, k);
    UnitStep(steps, j, k);
    forall m: nat
      ensures m in StageBetween(a, b, steps, j, k) <==> m in Spaced(a, u, s)
    {
      StageBetweenSpaced(a, b, steps, j, k, m);
      if m in Spaced(a, u, s) {
        SpacedBefore(a, u, s, m);
      }
    }
    assert StageBetween(a, b, steps, j, k) == Spaced(a, u, s);
    SpacedSize(a, u, s);
  }

  /** After the last item of the stages above `j`, at most `steps[j - 1]` items of stage `j` are left. */
  lemma StepItemsAfterLast(a: nat, n: nat, steps: seq<nat>, j: nat, k: nat)
    requires 1 <= j <= k <= |steps|
    requires Above(a, steps, j, k) && NoneAbove(a, n + 1, steps, j, k)
    ensures |StageBetween(a, n + 1, steps, j, k)| <= steps[j - 1]
  {
    var u, s := Unit(steps, j, k), steps[j - 1];
    NextAbove(a, steps, j, k);
    assert n + 1 <= a + Unit(steps, j - 1, k);
    forall m: nat | m in StageBetween(a, n + 1, steps, j, k)
      ensures m in Spaced(a, u, s)
    {
      StageBetweenSpaced(a, n + 1, steps, j, k, m);
    }
    SubsetSize(StageBetween(a, n + 1, steps, j, k), Spaced(a, u, s));
    SpacedSize(a, u, s);
  }

  lemma {:induction false} SubsetSize(a: set<nat>, b: set<nat>)
    requires a <= b
    ensures |a| <= |b|
  {
    if a != {} {
      var x :| x in a;
      SubsetSize(a - {x}, b - {x});
    }
  }

  // ---------------------------------------------------------------- where the groups of a stage lie

  lemma DigitsCompose(q: nat, r: nat, t: nat, d: nat, u: nat)
    requires r < u && t < d
    ensures (q * u + r) * d + t == q * (d * u) + (r * d + t)
    ensures r * d + t < d * u
  {
    assert (q * u + r) * d == (q * u) * d + r * d;
    assert (q * u) * d == q * (d * u);
    MulMonotone(r + 1, u, d);
    assert (r + 1) * d == r * d + d;
  }

  lemma QuotientOfDigits(n: nat, a: nat, t: nat, q: nat, r: nat, d: nat, u: nat)
    requires n == a * d + t && a == q * u + r && r < u && t < d && d * u >= 1
    ensures n / (d * u) == q
  {
    DigitsCompose(q, r, t, d, u);
    DivUnique(n, d * u, q, r * d + t);
  }

  lemma DivDiv(n: nat, d: nat, u: nat)
    requires d >= 1 && u >= 1
    ensures d * u >= 1 && n / (d * u) == n / d / u
  {
    var a := n / d;
    MulMonotone(1, d, u);
    QuotientOfDigits(n, a, n % d, a / u, a % u, d, u);
  }

  /** The items up to stage `j` number the multiples of the unit of that stage. */
  lemma {:induction false} ItemsAreMultiples(n: nat, steps: seq<nat>, j: nat, k: nat)
    requires j <= k <= |steps|
    ensures ItemsUpTo(n, steps, k, j) == n / Unit(steps, j, k)
    decreases k - j
  {
    if j < k {
      ItemsAreMultiples(n, steps, j + 1, k);
      UnitStep(steps, j + 1, k);
      var d, u := steps[j] + 1, Unit(steps, j + 1, k);
      assert d * u == u * d;
      DivDiv(n, u, d);
    }
  }

  /** The offset within its stage of an item, counted in units of the stage. */
  function Offset(q: nat, d: nat): int
    requires d >= 1
  {
    q - q / d - 1
  }

  /** How an item is placed within its stage: after the stages above, by its rank among the items of the stage. */
  lemma {:induction false} SlotOfStage(m: nat, n: nat, steps: seq<nat>, j: nat, k: nat)
    requires 1 <= j <= k <= |steps| && StageOf(m, steps, k) == j
    ensures Slot(m, n, steps, k) == n / Unit(steps, j - 1, k) + Offset(m / Unit(steps, j, k), steps[j - 1] + 1)
    decreases k
  {
    if j < k {
      var d := steps[k - 1] + 1;
      SlotBelow(m, n, steps, k);
      SlotOfStage(m / d, n / d, steps, j, k - 1);
      UnitBelow(m, steps, j, k);
      UnitBelow(n, steps, j - 1, k);
    } else {
      SlotInLastStage(m, n, steps, k);
    }
  }

  lemma SlotBelow(m: nat, n: nat, steps: seq<nat>, k: nat)
    requires 1 <= k <= |steps| && StageOf(m, steps, k) < k
    ensures var d := steps[k - 1] + 1;
            && StageOf(m / d, steps, k - 1) == StageOf(m, steps, k)
            && Slot(m, n, steps, k) == Slot(m / d, n / d, steps, k - 1)
  {
  }

  lemma SlotInLastStage(m: nat, n: nat, steps: seq<nat>, k: nat)
    requires 1 <= k <= |steps| && StageOf(m, steps, k) == k
    ensures Slot(m, n, steps, k) == n / Unit(steps, k - 1, k) + Offset(m / Unit(steps, k, k), steps[k - 1] + 1)
  {
    LastUnits(steps, k);
  }

  lemma LastUnits(steps: seq<nat>, k: nat)
    requires 1 <= k <= |steps|
    ensures Unit(steps, k, k) == 1 && Unit(steps, k - 1, k) == steps[k - 1] + 1
  {
    assert Unit(steps, k - 1, k - 1) == 1;
  }

  lemma UnitBelow(m: nat, steps: seq<nat>, j: nat, k: nat)
    requires j < k <= |steps|
    ensures m / Unit(steps, j, k) == m / (steps[k - 1] + 1) / Unit(steps, j, k - 1)
  {
    DivDiv(m, steps[k - 1] + 1, Unit(steps, j, k - 1));
  }

  /** The `t`-th item of the stage in the `i`-th group: its offset within the stage. */
  lemma OffsetInGroup(i: nat, t: nat, s: nat)
    requires i >= 1 && 1 <= t <= s
    ensures var q := (i - 1) * (s + 1) + t;
            q % (s + 1) == t && q - q / (s + 1) - 1 == (i - 1) * s + (t - 1)
  {
    var q := (i - 1) * (s + 1) + t;
    DivUnique(q, s + 1, i - 1, t);
    assert (i - 1) * (s + 1) == (i - 1) * s + (i - 1);
  }

  lemma MulCancels(a: nat, b: nat, u: nat)
    requires a * u < b * u
    ensures a < b
  {
    if b <= a {
      MulMonotone(b, a, u);
    }
  }

  lemma MulLess(a: nat, b: nat, u: nat)
    requires a < b && u >= 1
    ensures a * u < b * u
  {
    MulMonotone(a + 1, b, u);
    assert (a + 1) * u == a * u + u;
  }

  /** The `i`-th group of stage `j`: its items between the `i - 1`-st and the `i`-th item of the stages above. */
  function Group(i: nat, steps: seq<nat>, j: nat, k: nat): set<nat>
    requires 1 <= i && 1 <= j <= k <= |steps|
  {
    StageBetween((i - 1) * Unit(steps, j - 1, k), i * Unit(steps, j - 1, k), steps, j, k)
  }

  lemma ScaledLess(a: nat, b: nat, u: nat)
    requires u >= 1
    ensures a * u < b * u <==> a < b
  {
    if a < b {
      MulLess(a, b, u);
    }
    if a * u < b * u {
      MulCancels(a, b, u);
    }
  }

  lemma Associates(i: nat, d: nat, u: nat)
    ensures i * (d * u) == (i * d) * u
  {
  }

  lemma ScaledBetween(i: nat, q: nat, d: nat, u: nat, v: nat)
    requires i >= 1 && u >= 1 && v == d * u
    ensures (i - 1) * v < q * u < i * v <==> (i - 1) * d < q < i * d
  {
    Associates(i - 1, d, u);
    Associates(i, d, u);
    ScaledLess((i - 1) * d, q, u);
    ScaledLess(q, i * d, u);
  }

  lemma BetweenMultiples(i: nat, q: nat, s: nat)
    requires i >= 1 && (i - 1) * (s + 1) < q < i * (s + 1)
    ensures 1 <= q - (i - 1) * (s + 1) <= s && q % (s + 1) != 0
    ensures q - q / (s + 1) - 1 == (i - 1) * s + (q - (i - 1) * (s + 1) - 1)
  {
    assert i * (s + 1) == (i - 1) * (s + 1) + (s + 1);
    OffsetInGroup(i, q - (i - 1) * (s + 1), s);
  }

  /** Counted in units of the stage, the items of a group are consecutive. */
  lemma GroupMember(i: nat, q: nat, steps: seq<nat>, j: nat, k: nat)
    requires 1 <= i && 1 <= j <= k <= |steps|
    ensures q * Unit(steps, j, k) in Group(i, steps, j, k)
            <==> (i - 1) * (steps[j - 1] + 1) < q < i * (steps[j - 1] + 1)
  {
    var u, d, v := Unit(steps, j, k), steps[j - 1] + 1, Unit(steps, j - 1, k);
    UnitStep(steps, j, k);
    ScaledBetween(i, q, d, u, v);
    if (i - 1) * d < q < i * d {
      BetweenMultiples(i, q, d - 1);
      UnitMultiple(q, steps, j, k);
    }
  }

  lemma MultipleOfUnitOnly(q: nat, u: nat, d: nat)
    requires u >= 1 && d >= 1 && q % d != 0
    ensures d * u >= 1 && (q * u) % u == 0 && (q * u) % (d * u) != 0
  {
    DivUnique(q * u, u, q, 0);
    MultipleOfProduct(q * u, u, d);
    assert u * d == d * u;
  }

  /** A multiple of the unit of stage `j` that is none of the unit above is an item of stage `j`. */
  lemma UnitMultiple(q: nat, steps: seq<nat>, j: nat, k: nat)
    requires 1 <= j <= k <= |steps| && q % (steps[j - 1] + 1) != 0
    ensures StageOf(q * Unit(steps, j, k), steps, k) == j
  {
    var u := Unit(steps, j, k);
    MultipleOfUnitOnly(q, u, steps[j - 1] + 1);
    UnitStep(steps, j, k);
    StageAtMost(q * u, steps, j, k);
    StageAtMost(q * u, steps, j - 1, k);
  }

  /** The items of stage `j` in an array of `n` items. */
  function StageSize(n: nat, steps: seq<nat>, j: nat, k: nat): int
    requires 1 <= j <= k <= |steps|
  {
    ItemsUpTo(n, steps, k, j) - ItemsUpTo(n, steps, k, j - 1)
  }

  /** The sizes of the stages, counted in units. */
  lemma StageSizes(n: nat, steps: seq<nat>, j: nat, k: nat)
    requires 1 <= j <= k <= |steps|
    ensures var items := n / Unit(steps, j, k);
            && ItemsUpTo(n, steps, k, j) == items
            && ItemsUpTo(n, steps, k, j - 1) == n / Unit(steps, j - 1, k) == items / (steps[j - 1] + 1)
  {
    ItemsAreMultiples(n, steps, j, k);
    ItemsAreMultiples(n, steps, j - 1, k);
    UnitQuotient(n, steps, j, k);
  }

  lemma UnitQuotient(n: nat, steps: seq<nat>, j: nat, k: nat)
    requires 1 <= j <= k <= |steps|
    ensures n / Unit(steps, j - 1, k) == n / Unit(steps, j, k) / (steps[j - 1] + 1)
  {
    var u, d := Unit(steps, j, k), steps[j - 1] + 1;
    DivDiv(n, u, d);
    assert Unit(steps, j - 1, k) == u * d by { UnitStep(steps, j, k); }
  }

  lemma RankFits(q: nat, items: nat, n: nat, u: nat, d: nat)
    requires u >= 1 && d >= 1 && q % d != 0 && items == n / u
    ensures q * u <= n <==> q - q / d <= items - items / d
  {
    assert n == items * u + n % u;
    if q <= items {
      MulMonotone(q, items, u);
      DivMonotone(q, items, d);
    } else {
      MulMonotone(items + 1, q, u);
      assert (items + 1) * u == items * u + u;
      RanksRise(items, q, d);
    }
  }

  /**
   Item `q` of stage `j`, counted in units of the stage: the offset of its slot in the stage, and whether
   it is there.
   */
  lemma SlotOfUnit(q: nat, n: nat, steps: seq<nat>, j: nat, k: nat)
    requires 1 <= j <= k <= |steps| && q % (steps[j - 1] + 1) != 0
    ensures var s, m := steps[j - 1], q * Unit(steps, j, k);
            && Slot(m, n, steps, k) == ItemsUpTo(n, steps, k, j - 1) + (q - q / (s + 1)) - 1
            && (m <= n <==> q - q / (s + 1) <= StageSize(n, steps, j, k))
  {
    var u, d := Unit(steps, j, k), steps[j - 1] + 1;
    UnitMultiple(q, steps, j, k);
    SlotOfStage(q * u, n, steps, j, k);
    DivUnique(q * u, u, q, 0);
    StageSizes(n, steps, j, k);
    RankFits(q, n / u, n, u, d);
  }

  /** The slots of the items of a group that are there. */
  function GroupSlots(i: nat, n: nat, steps: seq<nat>, j: nat, k: nat): set<int>
    requires 1 <= i && 1 <= j <= k <= |steps|
  {
    set m | m in Group(i, steps, j, k) && m <= n :: Slot(m, n, steps, k)
  }

  /** An item of a group is in one of the slots of the group. */
  lemma GroupItemInSlots(m: nat, i: nat, n: nat, steps: seq<nat>, j: nat, k: nat)
    requires 1 <= i && 1 <= j <= k <= |steps| && m in Group(i, steps, j, k) && m <= n
    ensures var s, o := steps[j - 1], Slot(m, n, steps, k) - ItemsUpTo(n, steps, k, j - 1);
            0 <= o < StageSize(n, steps, j, k) && (i - 1) * s <= o < i * s
  {
    var u, s := Unit(steps, j, k), steps[j - 1];
    StageAtMost(m, steps, j, k);
    var q := m / u;
    assert m == q * u;
    GroupMember(i, q, steps, j, k);
    BetweenMultiples(i, q, s);
    assert i * s == (i - 1) * s + s;
    SlotOfUnit(q, n, steps, j, k);
  }

  /** Each slot of a group holds an item of the group. */
  lemma GroupSlotHasItem(o: nat, i: nat, n: nat, steps: seq<nat>, j: nat, k: nat) returns (m: nat)
    requires 1 <= i && 1 <= j <= k <= |steps|
    requires (i - 1) * steps[j - 1] <= o < i * steps[j - 1] && o < StageSize(n, steps, j, k)
    ensures m in Group(i, steps, j, k) && m <= n
    ensures Slot(m, n, steps, k) == ItemsUpTo(n, steps, k, j - 1) + o
  {
    var s := steps[j - 1];
    assert i * (s + 1) == (i - 1) * (s + 1) + (s + 1) && i * s == (i - 1) * s + s;
    var t := o - (i - 1) * s + 1;
    var q := (i - 1) * (s + 1) + t;
    OffsetInGroup(i, t, s);
    SlotOfUnit(q, n, steps, j, k);
    GroupMember(i, q, steps, j, k);
    m := q * Unit(steps, j, k);
  }

  /**
   The `i`-th group of stage `j` lies in consecutive slots: those at offsets `(i - 1) * step` to
   `i * step - 1` of the stage, as far as the stage goes.  It goes that far if the item of the stages
   above that ends the group is there.
   */
  lemma GroupIsContiguous(i: nat, n: nat, steps: seq<nat>, j: nat, k: nat)
    requires 1 <= i && 1 <= j <= k <= |steps|
    ensures forall p: int :: p in GroupSlots(i, n, steps, j, k) <==> InGroup(p, i, n, steps, j, k)
    ensures i * Unit(steps, j - 1, k) <= n ==> i * steps[j - 1] <= StageSize(n, steps, j, k)
  {
    forall p: int
      ensures p in GroupSlots(i, n, steps, j, k) <==> InGroup(p, i, n, steps, j, k)
    {
      if p in GroupSlots(i, n, steps, j, k) {
        var m :| m in Group(i, steps, j, k) && m <= n && Slot(m, n, steps, k) == p;
        GroupItemInSlots(m, i, n, steps, j, k);
      }
      if InGroup(p, i, n, steps, j, k) {
        var m := GroupSlotHasItem(p - ItemsUpTo(n, steps, k, j - 1), i, n, steps, j, k);
      }
    }
    if i * Unit(steps, j - 1, k) <= n {
      FullGroups(i, n, steps, j, k);
    }
  }

  /** Slot `p` is at an offset from `(i - 1) * step` to `i * step - 1` of stage `j`, and the stage goes that far. */
  predicate InGroup(p: int, i: nat, n: nat, steps: seq<nat>, j: nat, k: nat)
    requires 1 <= i && 1 <= j <= k <= |steps|
  {
    var offset, s := p - ItemsUpTo(n, steps, k, j - 1), steps[j - 1];
    0 <= offset < StageSize(n, steps, j, k) && (i - 1) * s <= offset < i * s
  }

  lemma WholeGroups(i: nat, items: nat, s: nat)
    requires i <= items / (s + 1)
    ensures i * s <= items - items / (s + 1)
  {
    var q := items / (s + 1);
    assert items == q * (s + 1) + items % (s + 1);
    assert q * (s + 1) == q * s + q;
    MulMonotone(i, q, s);
  }

  lemma FullGroups(i: nat, n: nat, steps: seq<nat>, j: nat, k: nat)
    requires 1 <= j <= k <= |steps| && i * Unit(steps, j - 1, k) <= n
    ensures i * steps[j - 1] <= StageSize(n, steps, j, k)
  {
    var v := Unit(steps, j - 1, k);
    DivMonotone(i * v, n, v);
    DivUnique(i * v, v, i, 0);
    StageSizes(n, steps, j, k);
    WholeGroups(i, n / Unit(steps, j, k), steps[j - 1]);
  }

  // ---------------------------------------------------------------- reading a rank back

  /** The number of items up to the one at offset `stagePos` of a stage, as the index computes it. */
  function StagePosItemsCount(stagePos: nat, stage: nat, steps: seq<nat>): nat
    requires stage <= |steps|
  {
    var stageItems := stagePos + 1;
    if stage == 0 then stageItems else stageItems + stageItems / (steps[stage - 1] + 1)
  }

  /**
   `GetIdxPosition` gives item `m` of a stage with step `s` the offset `m - m / (s + 1) - 1`.  The
   count reads that offset back as `m` only near the front of the stage: exactly when
   `p / s <= p % s + 1` at offset `p`.  A stage with step 0 has no items, so nothing is read back.
   */
  lemma ItemsCountExactly(stagePos: nat, stage: nat, steps: seq<nat>)
    requires 1 <= stage <= |steps|
    ensures var s, c := steps[stage - 1], StagePosItemsCount(stagePos, stage, steps);
            c % (s + 1) != 0 && c - c / (s + 1) - 1 == stagePos
            <==> s >= 1 && stagePos / s <= stagePos % s + 1
  {
    var s, c := steps[stage - 1], StagePosItemsCount(stagePos, stage, steps);
    if s >= 1 {
      RankIsUnique(c, stagePos, s);
      assert c == stagePos + 1 + (stagePos + 1) / (s + 1);
      QuotientsAgree(stagePos, s);
    }
  }

  /** On the first stage the count is right everywhere: it gives the item at that slot. */
  lemma FirstStageCount(stagePos: nat, n: nat, steps: seq<nat>)
    ensures Slot(StagePosItemsCount(stagePos, 0, steps), n, steps, 0) == stagePos
  {
  }

  /** A concrete case: with step 2, offset 4 holds item 7, and the count gives 6, an item of the stages above. */
  lemma ItemsCountMissesItem(stage: nat, steps: seq<nat>)
    requires 1 <= stage <= |steps| && steps[stage - 1] == 2
    ensures 7 % 3 != 0 && 7 - 7 / 3 - 1 == 4
    ensures StagePosItemsCount(4, stage, steps) == 6 && StageOf(6, steps, stage) < stage
    ensures StageOf(7, steps, stage) == stage
  {
  }

  /** Only one item of a stage has a given offset. */
  lemma RankIsUnique(c: nat, p: nat, s: nat)
    requires s >= 1
    ensures c % (s + 1) != 0 && c - c / (s + 1) - 1 == p <==> c == p + p / s + 1
  {
    NonMultipleAt(p, s);
    if c % (s + 1) != 0 && c - c / (s + 1) - 1 == p {
      NonMultipleRank(c, s);
    }
  }

  lemma QuotientsAgree(p: nat, s: nat)
    requires s >= 1
    ensures (p + 1) / (s + 1) == p / s <==> p / s <= p % s + 1
  {
    var q, t := p / s, p % s;
    assert p == q * s + t;
    assert q * (s + 1) == q * s + q;
    if q <= t + 1 {
      DivUnique(p + 1, s + 1, q, t + 1 - q);
    } else {
      QuotientBelow(p + 1, s + 1, q - 1);
    }
  }
}
