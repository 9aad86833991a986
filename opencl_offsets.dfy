/** The host-side offset stage of one pass of `run_opencl_radix`. The device
    leaves a per-group histogram `gh` of `groups * RADIX` counts, group `g`'s
    count of digit `d` at `gh[Cell(g, d)]`. From it the host computes the
    bucket totals `bt`, their exclusive prefix sum `pg` (where each bucket's
    region of the output begins) and, per bucket, the exclusive prefix sum
    `go` across groups (where each group's share of that region begins).
    All three are `uint32_t`, so every sum wraps modulo 2^32. */
module OpenClOffsets {
  import opened Arith
  import opened OpenClConfig

  /** Where group `g`'s entry for digit `d` sits in `gh` and `go`:
      `g * RADIX + d`. */
  function Cell(g: nat, d: nat): nat
  {
    g * 256 + d
  }

  /** Group `g`'s count of digit `d` sits inside the histogram. */
  lemma CellInRange(groups: nat, g: nat, d: nat)
    requires g < groups && d < RADIX
    ensures Cell(g, d) < groups * RADIX
  {
  }

  /** Different (group, digit) pairs use different cells. */
  lemma CellsDistinct(g1: nat, d1: nat, g2: nat, d2: nat)
    requires d1 < RADIX && d2 < RADIX
    requires g1 != g2 || d1 != d2
    ensures Cell(g1, d1) != Cell(g2, d2)
  {
    if g1 < g2 {
      MulMonotone(g1 + 1, g2, RADIX);
    } else if g2 < g1 {
      MulMonotone(g2 + 1, g1, RADIX);
    }
  }

  /** gh[Cell(0, d)] + ... + gh[Cell(g - 1, d)]: how many keys of
      digit `d` the groups before `g` hold. */
  function ColumnSum(gh: seq<u32>, groups: nat, d: nat, g: nat): nat
    requires |gh| == groups * RADIX && d < RADIX && g <= groups
  {
    if g == 0 then 0 else ColumnSum(gh, groups, d, g - 1) + gh[Cell(g - 1, d)]
  }

  /** How many keys of digit `d` there are over all groups. */
  function BucketTotal(gh: seq<u32>, groups: nat, d: nat): nat
    requires |gh| == groups * RADIX && d < RADIX
  {
    ColumnSum(gh, groups, d, groups)
  }

  /** Where the region of digit `d` begins: the totals of the digits below
      `d`. */
  function DigitStart(gh: seq<u32>, groups: nat, d: nat): nat
    requires |gh| == groups * RADIX && d <= RADIX
  {
    if d == 0 then 0 else DigitStart(gh, groups, d - 1) + BucketTotal(gh, groups, d - 1)
  }

  /** The sum of all counts of the histogram. */
  function Total(gh: seq<u32>, groups: nat): nat
    requires |gh| == groups * RADIX
  {
    DigitStart(gh, groups, RADIX)
  }

  /** The output slot of the `i`-th key of digit `d` in group `g`. */
  function Slot(gh: seq<u32>, groups: nat, d: nat, g: nat, i: nat): nat
    requires |gh| == groups * RADIX && d < RADIX && g <= groups
  {
    DigitStart(gh, groups, d) + ColumnSum(gh, groups, d, g) + i
  }

  /** `i` is the index of a key of digit `d` in group `g`. */
  ghost predicate ValidKey(gh: seq<u32>, groups: nat, d: nat, g: nat, i: nat)
  {
    |gh| == groups * RADIX && d < RADIX && g < groups && i < gh[Cell(g, d)]
  }

  // ---------------------------------------------------------------------
  // The host loops

  /** `bt[d]` is the sum, in `uint32_t`, of digit `d`'s counts over all
      groups. */
  method BucketTotals(gh: array<u32>, groups: nat, bt: array<u32>)
    requires gh.Length == groups * RADIX && bt.Length == RADIX && gh != bt
    modifies bt
    ensures gh[..] == old(gh[..])
    ensures forall d :: 0 <= d < RADIX ==> bt[d] == BucketTotal(gh[..], groups, d) % U32_LIMIT
  {
    ghost var h := gh[..];
    for d := 0 to RADIX
      invariant gh[..] == h
      invariant forall e :: 0 <= e < d ==> bt[e] == BucketTotal(h, groups, e) % U32_LIMIT
    {
      var sum: u32 := 0;
      for g := 0 to groups
        invariant sum == ColumnSum(h, groups, d, g) % U32_LIMIT
        invariant forall e :: 0 <= e < d ==> bt[e] == BucketTotal(h, groups, e) % U32_LIMIT
      {
        CellInRange(groups, g, d);
        AddModLeft(ColumnSum(h, groups, d, g), gh[Cell(g, d)], U32_LIMIT);
        sum := Add32(sum, gh[Cell(g, d)]);
      }
      bt[d] := sum;
    }
  }

  /** `pg[0] = 0` and `pg[d] = pg[d - 1] + bt[d - 1]` in `uint32_t`. */
  method BucketPrefix(bt: array<u32>, pg: array<u32>)
    requires bt.Length == RADIX && pg.Length == RADIX && bt != pg
    modifies pg
    ensures forall d :: 0 <= d < RADIX ==> pg[d] == PrefixSum(bt[..], d) % U32_LIMIT
  {
    ghost var t := bt[..];
    pg[0] := 0;
    for d := 1 to RADIX
      invariant forall e :: 0 <= e < d ==> pg[e] == PrefixSum(t, e) % U32_LIMIT
    {
      AddModLeft(PrefixSum(t, d - 1), bt[d - 1], U32_LIMIT);
      pg[d] := Add32(pg[d - 1], bt[d - 1]);
    }
  }

  /** `go[g * RADIX + d]` is the sum, in `uint32_t`, of digit `d`'s counts
      in the groups before `g`. */
  method GroupOffsets(gh: array<u32>, groups: nat, go: array<u32>)
    requires gh.Length == groups * RADIX && go.Length == groups * RADIX && gh != go
    modifies go
    ensures forall g, d :: 0 <= g < groups && 0 <= d < RADIX ==>
      go[Cell(g, d)] == ColumnSum(gh[..], groups, d, g) % U32_LIMIT
  {
    ghost var h := gh[..];
    for d := 0 to RADIX
      invariant forall e :: 0 <= e < d ==> ColumnDone(go[..], h, groups, e, groups)
    {
      var sum: u32 := 0;
      for g := 0 to groups
        invariant sum == ColumnSum(h, groups, d, g) % U32_LIMIT
        invariant forall e :: 0 <= e < d ==> ColumnDone(go[..], h, groups, e, groups)
        invariant ColumnDone(go[..], h, groups, d, g)
      {
        ghost var before := go[..];
        CellInRange(groups, g, d);
        go[Cell(g, d)] := sum;
        ColumnWrite(before, go[..], h, groups, d, g, sum);
        AddModLeft(ColumnSum(h, groups, d, g), gh[Cell(g, d)], U32_LIMIT);
        sum := Add32(sum, gh[Cell(g, d)]);
      }
    }
    forall g, d | 0 <= g < groups && 0 <= d < RADIX
      ensures go[Cell(g, d)] == ColumnSum(h, groups, d, g) % U32_LIMIT
    {
      assert ColumnDone(go[..], h, groups, d, groups);
    }
  }

  /** Groups `0 .. upto - 1` of column `e` of `o` hold their offsets. */
  ghost predicate ColumnDone(o: seq<u32>, h: seq<u32>, groups: nat, e: nat, upto: nat)
  {
    |h| == groups * RADIX && |o| == groups * RADIX && e < RADIX && upto <= groups
    && forall g :: 0 <= g < upto ==> o[Cell(g, e)] == ColumnSum(h, groups, e, g) % U32_LIMIT
  }

  /** Writing group `g`'s offset into column `d` extends that column and
      leaves the finished columns before `d` as they are. */
  lemma ColumnWrite(o: seq<u32>, o': seq<u32>, h: seq<u32>, groups: nat, d: nat, g: nat, v: u32)
    requires |h| == groups * RADIX && |o| == groups * RADIX && d < RADIX && g < groups
    requires forall e :: 0 <= e < d ==> ColumnDone(o, h, groups, e, groups)
    requires ColumnDone(o, h, groups, d, g)
    requires v == ColumnSum(h, groups, d, g) % U32_LIMIT
    requires Cell(g, d) < |o| && o' == o[Cell(g, d) := v]
    ensures forall e :: 0 <= e < d ==> ColumnDone(o', h, groups, e, groups)
    ensures ColumnDone(o', h, groups, d, g + 1)
  {
    forall e | 0 <= e < d ensures ColumnDone(o', h, groups, e, groups) {
      ColumnKept(o, o', h, groups, e, g, d, v);
    }
    ColumnExtend(o, o', h, groups, d, g, v);
  }

  /** Writing a cell of column `d` keeps a finished column `e != d`. */
  lemma ColumnKept(o: seq<u32>, o': seq<u32>, h: seq<u32>, groups: nat, e: nat, g: nat, d: nat, v: u32)
    requires ColumnDone(o, h, groups, e, groups)
    requires e != d && d < RADIX && Cell(g, d) < |o| && o' == o[Cell(g, d) := v]
    ensures ColumnDone(o', h, groups, e, groups)
  {
    forall g' | 0 <= g' < groups ensures o'[Cell(g', e)] == o[Cell(g', e)] {
      CellInRange(groups, g', e);
      CellsDistinct(g', e, g, d);
    }
  }

  lemma ColumnExtend(o: seq<u32>, o': seq<u32>, h: seq<u32>, groups: nat, d: nat, g: nat, v: u32)
    requires ColumnDone(o, h, groups, d, g) && g < groups
    requires v == ColumnSum(h, groups, d, g) % U32_LIMIT
    requires Cell(g, d) < |o| && o' == o[Cell(g, d) := v]
    ensures ColumnDone(o', h, groups, d, g + 1)
  {
    forall g' | 0 <= g' < g ensures o'[Cell(g', d)] == o[Cell(g', d)] {
      CellInRange(groups, g', d);
    }
  }

  /** Lines 125-141 of the host code: bucket totals, bucket starts and group
      offsets, each sum wrapping modulo 2^32 as `uint32_t` does. */
  method OffsetStage(gh: array<u32>, groups: nat, bt: array<u32>, pg: array<u32>, go: array<u32>)
    requires gh.Length == groups * RADIX && go.Length == groups * RADIX
    requires bt.Length == RADIX && pg.Length == RADIX
    requires gh != bt && gh != pg && gh != go && bt != pg && bt != go && pg != go
    modifies bt, pg, go
    ensures gh[..] == old(gh[..])
    ensures Offsets(gh[..], groups, bt[..], pg[..], go[..])
  {
    BucketTotals(gh, groups, bt);
    BucketPrefix(bt, pg);
    GroupOffsets(gh, groups, go);
    forall d | 0 <= d < RADIX ensures pg[d] == DigitStart(gh[..], groups, d) % U32_LIMIT {
      PrefixOfTotals(bt[..], gh[..], groups, d);
    }
  }

  /** What the offset stage leaves in `bt`, `pg` and `go`. */
  ghost predicate Offsets(gh: seq<u32>, groups: nat, bt: seq<u32>, pg: seq<u32>, go: seq<u32>)
  {
    |gh| == groups * RADIX && |go| == groups * RADIX && |bt| == RADIX && |pg| == RADIX
    && (forall d :: 0 <= d < RADIX ==> bt[d] == BucketTotal(gh, groups, d) % U32_LIMIT)
    && (forall d :: 0 <= d < RADIX ==> pg[d] == DigitStart(gh, groups, d) % U32_LIMIT)
    && (forall g, d :: 0 <= g < groups && 0 <= d < RADIX ==>
          go[Cell(g, d)] == ColumnSum(gh, groups, d, g) % U32_LIMIT)
  }

  /** Summing the wrapped totals wraps the sum of the totals. */
  lemma {:induction false} PrefixOfTotals(bt: seq<u32>, gh: seq<u32>, groups: nat, d: nat)
    requires |gh| == groups * RADIX && |bt| == RADIX && d <= RADIX
    requires forall e :: 0 <= e < RADIX ==> bt[e] == BucketTotal(gh, groups, e) % U32_LIMIT
    ensures PrefixSum(bt, d) % U32_LIMIT == DigitStart(gh, groups, d) % U32_LIMIT
  {
    if d > 0 {
      PrefixOfTotals(bt, gh, groups, d - 1);
      AddModStep(PrefixSum(bt, d - 1), DigitStart(gh, groups, d - 1), BucketTotal(gh, groups, d - 1), U32_LIMIT);
    }
  }

  // ---------------------------------------------------------------------
  // The layout the offsets describe

  lemma {:induction false} ColumnSumMonotone(gh: seq<u32>, groups: nat, d: nat, g1: nat, g2: nat)
    requires |gh| == groups * RADIX && d < RADIX && g1 <= g2 <= groups
    ensures ColumnSum(gh, groups, d, g1) <= ColumnSum(gh, groups, d, g2)
  {
    if g1 < g2 {
      ColumnSumMonotone(gh, groups, d, g1, g2 - 1);
    }
  }

  /** Group `g`'s share of digit `d`'s region ends no later than where the
      share of any later group begins, and inside the region. */
  lemma GroupShareBounds(gh: seq<u32>, groups: nat, d: nat, g: nat)
    requires |gh| == groups * RADIX && d < RADIX && g < groups
    ensures forall g2 :: g < g2 <= groups ==>
      ColumnSum(gh, groups, d, g) + gh[Cell(g, d)] <= ColumnSum(gh, groups, d, g2)
    ensures ColumnSum(gh, groups, d, g) + gh[Cell(g, d)] <= BucketTotal(gh, groups, d)
  {
    forall g2 | g < g2 <= groups
      ensures ColumnSum(gh, groups, d, g) + gh[Cell(g, d)] <= ColumnSum(gh, groups, d, g2)
    {
      ColumnSumMonotone(gh, groups, d, g + 1, g2);
    }
  }

  lemma {:induction false} DigitStartMonotone(gh: seq<u32>, groups: nat, d1: nat, d2: nat)
    requires |gh| == groups * RADIX && d1 <= d2 <= RADIX
    ensures DigitStart(gh, groups, d1) <= DigitStart(gh, groups, d2)
  {
    if d1 < d2 {
      DigitStartMonotone(gh, groups, d1, d2 - 1);
    }
  }

  /** The `i`-th key of digit `d` in group `g` lands inside digit `d`'s
      region `[pg[d], pg[d] + bt[d])`, and so below the total. */
  lemma SlotInRegion(gh: seq<u32>, groups: nat, d: nat, g: nat, i: nat)
    requires ValidKey(gh, groups, d, g, i)
    ensures DigitStart(gh, groups, d) <= Slot(gh, groups, d, g, i)
    ensures Slot(gh, groups, d, g, i) < DigitStart(gh, groups, d) + BucketTotal(gh, groups, d)
    ensures Slot(gh, groups, d, g, i) < Total(gh, groups)
  {
    GroupShareBounds(gh, groups, d, g);
    DigitStartMonotone(gh, groups, d + 1, RADIX);
  }

  /** No two keys are given the same slot. */
  lemma SlotsInjective(gh: seq<u32>, groups: nat, d1: nat, g1: nat, i1: nat, d2: nat, g2: nat, i2: nat)
    requires ValidKey(gh, groups, d1, g1, i1) && ValidKey(gh, groups, d2, g2, i2)
    requires Slot(gh, groups, d1, g1, i1) == Slot(gh, groups, d2, g2, i2)
    ensures d1 == d2 && g1 == g2 && i1 == i2
  {
    SlotInRegion(gh, groups, d1, g1, i1);
    SlotInRegion(gh, groups, d2, g2, i2);
    if d1 < d2 {
      DigitStartMonotone(gh, groups, d1 + 1, d2);
    } else if d2 < d1 {
      DigitStartMonotone(gh, groups, d2 + 1, d1);
    } else if g1 < g2 {
      GroupShareBounds(gh, groups, d1, g1);
    } else if g2 < g1 {
      GroupShareBounds(gh, groups, d1, g2);
    }
  }

  /** Every slot below the total belongs to some key. */
  lemma SlotsCover(gh: seq<u32>, groups: nat, j: nat)
    requires |gh| == groups * RADIX && j < Total(gh, groups)
    ensures exists d, g, i :: ValidKey(gh, groups, d, g, i) && Slot(gh, groups, d, g, i) == j
  {
    var d := FindDigit(gh, groups, j, RADIX);
    var g := FindGroup(gh, groups, d, j - DigitStart(gh, groups, d), groups);
    var i := j - DigitStart(gh, groups, d) - ColumnSum(gh, groups, d, g);
    assert ValidKey(gh, groups, d, g, i) && Slot(gh, groups, d, g, i) == j;
  }

  /** The digit whose region holds slot `j`. */
  lemma {:induction false} FindDigit(gh: seq<u32>, groups: nat, j: nat, k: nat) returns (d: nat)
    requires |gh| == groups * RADIX && k <= RADIX && j < DigitStart(gh, groups, k)
    ensures d < k && DigitStart(gh, groups, d) <= j < DigitStart(gh, groups, d) + BucketTotal(gh, groups, d)
  {
    if j < DigitStart(gh, groups, k - 1) {
      d := FindDigit(gh, groups, j, k - 1);
    } else {
      d := k - 1;
    }
  }

  /** The group whose share of digit `d`'s region holds offset `r`. */
  lemma {:induction false} FindGroup(gh: seq<u32>, groups: nat, d: nat, r: nat, k: nat) returns (g: nat)
    requires |gh| == groups * RADIX && d < RADIX && k <= groups && r < ColumnSum(gh, groups, d, k)
    ensures g < k && ColumnSum(gh, groups, d, g) <= r < ColumnSum(gh, groups, d, g) + gh[Cell(g, d)]
  {
    if r < ColumnSum(gh, groups, d, k - 1) {
      g := FindGroup(gh, groups, d, r, k - 1);
    } else {
      g := k - 1;
    }
  }

  /** When the histogram sums to less than 2^32 nothing wraps: `bt`, `pg`
      and `go` hold the exact sums, and the last region ends at the total,
      `pg[RADIX - 1] + bt[RADIX - 1] == Total`. */
  lemma ExactOffsets(gh: seq<u32>, groups: nat, bt: seq<u32>, pg: seq<u32>, go: seq<u32>)
    requires Offsets(gh, groups, bt, pg, go)
    requires Total(gh, groups) < U32_LIMIT
    ensures forall d :: 0 <= d < RADIX ==> bt[d] == BucketTotal(gh, groups, d)
    ensures forall d :: 0 <= d < RADIX ==> pg[d] == DigitStart(gh, groups, d)
    ensures forall g, d :: 0 <= g < groups && 0 <= d < RADIX ==> go[Cell(g, d)] == ColumnSum(gh, groups, d, g)
    ensures pg[RADIX - 1] + bt[RADIX - 1] == Total(gh, groups)
  {
    forall d | 0 <= d < RADIX
      ensures bt[d] == BucketTotal(gh, groups, d) && pg[d] == DigitStart(gh, groups, d)
    {
      DigitStartMonotone(gh, groups, d + 1, RADIX);
      ModSmall(BucketTotal(gh, groups, d), U32_LIMIT);
      ModSmall(DigitStart(gh, groups, d), U32_LIMIT);
    }
    forall g, d | 0 <= g < groups && 0 <= d < RADIX
      ensures go[Cell(g, d)] == ColumnSum(gh, groups, d, g)
    {
      ColumnSumMonotone(gh, groups, d, g, groups);
      DigitStartMonotone(gh, groups, d + 1, RADIX);
      ModSmall(ColumnSum(gh, groups, d, g), U32_LIMIT);
    }
  }

  /** Whatever wraps, `pg[0]` and group 0's offsets are 0, and the last
      region ends at the total modulo 2^32. */
  lemma WrappedOffsets(gh: seq<u32>, groups: nat, bt: seq<u32>, pg: seq<u32>, go: seq<u32>)
    requires Offsets(gh, groups, bt, pg, go)
    ensures pg[0] == 0
    ensures groups > 0 ==> forall d :: 0 <= d < RADIX ==> go[Cell(0, d)] == 0
    ensures (pg[RADIX - 1] as nat + bt[RADIX - 1]) % U32_LIMIT == Total(gh, groups) % U32_LIMIT
  {
    var d := RADIX - 1;
    AddModLeft(DigitStart(gh, groups, d), bt[d], U32_LIMIT);
    AddModLeft(BucketTotal(gh, groups, d), DigitStart(gh, groups, d), U32_LIMIT);
  }

  /** When nothing wraps, in the arrays themselves: group `g`'s share
      `[pg[d] + go[g][d], pg[d] + go[g][d] + gh[g][d])` lies inside digit
      `d`'s region `[pg[d], pg[d] + bt[d])` and ends no later than the
      share of any later group begins, and the region of `d` ends where
      the next one begins. */
  lemma ExactLayout(gh: seq<u32>, groups: nat, bt: seq<u32>, pg: seq<u32>, go: seq<u32>, d: nat, g: nat)
    requires Offsets(gh, groups, bt, pg, go) && Total(gh, groups) < U32_LIMIT
    requires d < RADIX && g < groups
    ensures go[Cell(g, d)] as nat + gh[Cell(g, d)] <= bt[d]
    ensures forall g2 :: g < g2 < groups ==> go[Cell(g, d)] as nat + gh[Cell(g, d)] <= go[Cell(g2, d)]
    ensures d + 1 < RADIX ==> pg[d] as nat + bt[d] == pg[d + 1]
    ensures pg[d] as nat + bt[d] <= Total(gh, groups)
  {
    ExactOffsets(gh, groups, bt, pg, go);
    GroupShareBounds(gh, groups, d, g);
    DigitStartMonotone(gh, groups, d + 1, RADIX);
  }
}
