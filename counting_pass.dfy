/** The meaning of one pass of the sequential LSD radix sort: a stable
    counting sort of the keys on the 11-bit digit that starts at bit
    `shift`. A pass is specified as the concatenation, for bucket 0, 1, ...,
    2047 in turn, of the keys whose digit is that bucket, each group in
    input order. */
module CountingPass {
  import opened Arith

  /** Bits per digit, buckets per pass and passes for 64-bit keys,
      as `radix_sort_single_lsb<uint64_t>` fixes them. */
  const BITS: nat := 11
  const BUCKETS: nat := 2048
  const KEY_BITS: nat := 64
  const PASSES: nat := 6

  /** `BUCKETS` is `1 << BITS`, and `PASSES` is `(KEY_BITS + BITS - 1) / BITS`,
      the fewest digits that cover a key. */
  lemma PassesCoverKey()
    ensures BUCKETS == Pow2(BITS)
    ensures PASSES == (KEY_BITS + BITS - 1) / BITS
    ensures PASSES * BITS >= KEY_BITS && (PASSES - 1) * BITS < KEY_BITS
  {
  }

  /** The bucket of `x` in the pass that starts at bit `shift`:
      `(x >> shift) & (BUCKETS - 1)`. */
  function Digit(x: u64, shift: nat): (d: nat)
    ensures d < BUCKETS
  {
    (x / Pow2(shift)) % BUCKETS
  }

  /** How many keys of `s` fall in bucket `b`. */
  function Count(s: seq<u64>, shift: nat, b: nat): nat
  {
    if s == [] then 0
    else Count(s[..|s| - 1], shift, b) + (if Digit(s[|s| - 1], shift) == b then 1 else 0)
  }

  /** The keys of `s` that fall in bucket `b`, in their order in `s`. */
  function Filter(s: seq<u64>, shift: nat, b: nat): (f: seq<u64>)
    ensures |f| == Count(s, shift, b)
  {
    if s == [] then []
    else Filter(s[..|s| - 1], shift, b) + (if Digit(s[|s| - 1], shift) == b then [s[|s| - 1]] else [])
  }

  /** Every key of bucket `b` has digit `b`. */
  lemma {:induction false} FilterDigit(s: seq<u64>, shift: nat, b: nat)
    ensures forall k :: 0 <= k < |Filter(s, shift, b)| ==> Digit(Filter(s, shift, b)[k], shift) == b
  {
    if s != [] {
      FilterDigit(s[..|s| - 1], shift, b);
    }
  }

  /** The histogram of one pass, bucket by bucket. */
  function Histogram(s: seq<u64>, shift: nat): (h: seq<nat>)
    ensures |h| == BUCKETS
  {
    seq(BUCKETS, b requires 0 <= b < BUCKETS => Count(s, shift, b))
  }

  /** Where bucket `b` begins in the output of a pass: the exclusive prefix
      sum of the histogram. */
  function BucketStart(s: seq<u64>, shift: nat, b: nat): nat
    requires b <= BUCKETS
  {
    PrefixSum(Histogram(s, shift), b)
  }

  /** Bucket `b + 1` begins where bucket `b` ends. */
  lemma BucketStartNext(s: seq<u64>, shift: nat, b: nat)
    requires b < BUCKETS
    ensures BucketStart(s, shift, b + 1) == BucketStart(s, shift, b) + Count(s, shift, b)
  {
  }

  /** Buckets 0 .. k-1 of the pass, each in input order. */
  function Gather(s: seq<u64>, shift: nat, k: nat): seq<u64>
    requires k <= BUCKETS
  {
    if k == 0 then [] else Gather(s, shift, k - 1) + Filter(s, shift, k - 1)
  }

  /** Buckets 0 .. k-1 end where bucket `k` begins. */
  lemma {:induction false} GatherLength(s: seq<u64>, shift: nat, k: nat)
    requires k <= BUCKETS
    ensures |Gather(s, shift, k)| == BucketStart(s, shift, k)
  {
    if k > 0 {
      GatherLength(s, shift, k - 1);
    }
  }

  /** One stable counting-sort pass on the digit at `shift`. */
  function Pass(s: seq<u64>, shift: nat): seq<u64>
  {
    Gather(s, shift, BUCKETS)
  }

  /** The low `w` bits of a key. */
  function Low(x: nat, w: nat): nat
  {
    x % Pow2(w)
  }

  /** Ordered on the low `w` bits. */
  ghost predicate SortedBy(s: seq<u64>, w: nat)
  {
    forall i, j :: 0 <= i < j < |s| ==> Low(s[i], w) <= Low(s[j], w)
  }

  /** Ordered on the digit at `shift`. */
  ghost predicate SortedByDigit(s: seq<u64>, shift: nat)
  {
    forall i, j :: 0 <= i < j < |s| ==> Digit(s[i], shift) <= Digit(s[j], shift)
  }

  // ---------------------------------------------------------------------
  // Digit arithmetic

  /** The low `shift + BITS` bits are the digit at `shift` above the low
      `shift` bits. */
  lemma LowExtend(x: u64, shift: nat)
    ensures Low(x, shift + BITS) == Digit(x, shift) * Pow2(shift) + Low(x, shift)
    ensures Low(x, shift) < Pow2(shift)
  {
    Pow2Add(shift, BITS);
    ModSplit(x, Pow2(shift), BUCKETS);
  }

  lemma LowOrderByDigit(x: u64, y: u64, shift: nat)
    requires Digit(x, shift) < Digit(y, shift)
    ensures Low(x, shift + BITS) < Low(y, shift + BITS)
  {
    LowExtend(x, shift);
    LowExtend(y, shift);
    PlaceOrder(Digit(x, shift), Digit(y, shift), Low(x, shift), Low(y, shift), Pow2(shift));
  }

  lemma LowOrderSameDigit(x: u64, y: u64, shift: nat)
    requires Digit(x, shift) == Digit(y, shift)
    ensures Low(x, shift + BITS) <= Low(y, shift + BITS) <==> Low(x, shift) <= Low(y, shift)
  {
    LowExtend(x, shift);
    LowExtend(y, shift);
  }

  // ---------------------------------------------------------------------
  // Counting

  /** A bucket holds at most all the keys. */
  lemma {:induction false} CountBound(s: seq<u64>, shift: nat, b: nat)
    ensures Count(s, shift, b) <= |s|
  {
    if s != [] {
      CountBound(s[..|s| - 1], shift, b);
    }
  }

  lemma SnocPrefix(s: seq<u64>, x: u64)
    ensures (s + [x])[..|s|] == s && (s + [x])[|s|] == x
  {
  }

  /** A count over a prefix never exceeds the count over a longer prefix;
      the key at position `i` adds one to its own bucket. */
  lemma {:induction false} CountPrefix(s: seq<u64>, shift: nat, b: nat, i: nat, m: nat)
    requires i < m <= |s|
    ensures Count(s[..i], shift, b) + (if Digit(s[i], shift) == b then 1 else 0) <= Count(s[..m], shift, b)
  {
    if m == i + 1 {
      assert s[..m][..i] == s[..i];
    } else {
      CountPrefix(s, shift, b, i, m - 1);
      assert s[..m][..m - 1] == s[..m - 1];
    }
  }

  lemma CountBelowTotal(s: seq<u64>, shift: nat, b: nat, i: nat)
    requires i < |s|
    ensures Count(s[..i], shift, b) + (if Digit(s[i], shift) == b then 1 else 0) <= Count(s, shift, b)
  {
    CountPrefix(s, shift, b, i, |s|);
    assert s[..|s|] == s;
  }

  // ---------------------------------------------------------------------
  // Permutation

  lemma {:induction false} GatherEmpty(shift: nat, k: nat)
    requires k <= BUCKETS
    ensures Gather([], shift, k) == []
  {
    if k > 0 {
      GatherEmpty(shift, k - 1);
    }
  }

  /** Appending key `x` to the input appends `x` to its own bucket only. */
  lemma FilterSnoc(s: seq<u64>, x: u64, shift: nat, b: nat)
    ensures Filter(s + [x], shift, b) == Filter(s, shift, b) + (if Digit(x, shift) == b then [x] else [])
  {
    SnocPrefix(s, x);
  }

  /** Extending the input `s` by key `x` to `t` appends `x` to its own
      bucket only. */
  lemma FilterExtend(s: seq<u64>, t: seq<u64>, x: u64, shift: nat, b: nat)
    requires |t| == |s| + 1 && t[..|s|] == s && t[|s|] == x
    ensures Filter(t, shift, b) == Filter(s, shift, b) + (if Digit(x, shift) == b then [x] else [])
  {
  }

  /** One bucket's worth of `GatherSnoc`, over plain sequences: buckets
      0 .. k-2 grew by `dg`, bucket k-1 by `x` exactly when `d == k - 1`. */
  lemma GatherSnocStep(g: seq<u64>, f: seq<u64>, g': seq<u64>, f': seq<u64>, x: u64, d: nat, k: nat)
    requires k > 0
    requires multiset(g') == multiset(g) + (if d < k - 1 then multiset{x} else multiset{})
    requires multiset(f') == multiset(f) + (if d == k - 1 then multiset{x} else multiset{})
    ensures multiset(g' + f') == multiset(g + f) + (if d < k then multiset{x} else multiset{})
  {
  }

  /** Bucket `b` of `t` is bucket `b` of `s`, followed by `x` if that is
      the bucket of `x`. */
  ghost predicate BucketExtends(s: seq<u64>, t: seq<u64>, x: u64, shift: nat, b: nat)
  {
    multiset(Filter(t, shift, b)) == multiset(Filter(s, shift, b)) + (if Digit(x, shift) == b then multiset{x} else multiset{})
  }

  /** `t` is `s` with key `x` added to its own bucket. */
  ghost predicate Extends(s: seq<u64>, t: seq<u64>, x: u64, shift: nat)
  {
    forall b :: BucketExtends(s, t, x, shift, b)
  }

  /** Buckets 0 .. k-1 of `t` hold those of `s` and, when its digit is
      below `k`, the key `x`. */
  ghost predicate GatherGrows(s: seq<u64>, t: seq<u64>, x: u64, shift: nat, k: nat)
    requires k <= BUCKETS
  {
    multiset(Gather(t, shift, k))
      == multiset(Gather(s, shift, k)) + (if Digit(x, shift) < k then multiset{x} else multiset{})
  }

  /** Extending the input `s` by key `x` to `t` adds `x` to the
      concatenation of all buckets. */
  lemma GatherSnoc(s: seq<u64>, t: seq<u64>, x: u64, shift: nat)
    requires Extends(s, t, x, shift)
    ensures GatherGrows(s, t, x, shift, BUCKETS)
  {
    var k := 0;
    while k < BUCKETS
      invariant k <= BUCKETS
      invariant GatherGrows(s, t, x, shift, k)
    {
      GatherSnocNext(s, t, x, shift, k + 1);
      k := k + 1;
    }
  }

  /** The step of `GatherSnoc` from bucket `k - 1` to bucket `k`. */
  lemma GatherSnocNext(s: seq<u64>, t: seq<u64>, x: u64, shift: nat, k: nat)
    requires 0 < k <= BUCKETS
    requires BucketExtends(s, t, x, shift, k - 1)
    requires GatherGrows(s, t, x, shift, k - 1)
    ensures GatherGrows(s, t, x, shift, k)
  {
    GatherSnocStep(Gather(s, shift, k - 1), Filter(s, shift, k - 1),
                   Gather(t, shift, k - 1), Filter(t, shift, k - 1), x, Digit(x, shift), k);
  }

  lemma MultisetLast(s: seq<u64>)
    requires s != []
    ensures multiset(s) == multiset(s[..|s| - 1]) + multiset{s[|s| - 1]}
  {
    assert s == s[..|s| - 1] + [s[|s| - 1]];
  }

  /** A pass is a permutation of its input. */
  lemma {:induction false} PassPermutation(s: seq<u64>, shift: nat)
    ensures multiset(Pass(s, shift)) == multiset(s)
    ensures |Pass(s, shift)| == |s|
  {
    if s == [] {
      GatherEmpty(shift, BUCKETS);
    } else {
      var t, x := s[..|s| - 1], s[|s| - 1];
      PassPermutation(t, shift);
      forall b ensures BucketExtends(t, s, x, shift, b) {
        FilterExtend(t, s, x, shift, b);
      }
      GatherSnoc(t, s, x, shift);
      MultisetLast(s);
    }
    var p := Pass(s, shift);
    assert |p| == |multiset(p)|;
  }

  /** The histogram of a pass sums to the number of keys, and its exclusive
      prefix sum ends at that number. */
  lemma HistogramConservation(s: seq<u64>, shift: nat)
    ensures PrefixSum(Histogram(s, shift), BUCKETS) == |s|
    ensures BucketStart(s, shift, BUCKETS) == |s|
  {
    PassPermutation(s, shift);
    GatherLength(s, shift, BUCKETS);
  }

  // ---------------------------------------------------------------------
  // Stability

  lemma {:induction false} FilterConcat(a: seq<u64>, c: seq<u64>, shift: nat, b: nat)
    ensures Filter(a + c, shift, b) == Filter(a, shift, b) + Filter(c, shift, b)
  {
    if c == [] {
      assert a + c == a;
    } else {
      var c', x := c[..|c| - 1], c[|c| - 1];
      assert (a + c)[..|a + c| - 1] == a + c';
      FilterConcat(a, c', shift, b);
    }
  }

  lemma {:induction false} FilterFilter(s: seq<u64>, shift: nat, b: nat, c: nat)
    ensures Filter(Filter(s, shift, c), shift, b) == if b == c then Filter(s, shift, b) else []
  {
    if s != [] {
      var t, x := s[..|s| - 1], s[|s| - 1];
      FilterFilter(t, shift, b, c);
      var tail := if Digit(x, shift) == c then [x] else [];
      FilterConcat(Filter(t, shift, c), tail, shift, b);
      assert Filter(tail, shift, b) == if b == c && Digit(x, shift) == c then [x] else [] by {
        if tail != [] {
          assert tail[..0] == [];
        }
      }
    }
  }

  /** Bucket `b` of buckets 0 .. k-1 of a pass is bucket `b` of the input
      when `b < k`, and empty otherwise. */
  ghost predicate GatherKeeps(s: seq<u64>, shift: nat, k: nat, b: nat)
    requires k <= BUCKETS
  {
    Filter(Gather(s, shift, k), shift, b) == if b < k then Filter(s, shift, b) else []
  }

  /** The step of `PassStable` from bucket `k - 1` to bucket `k`. */
  lemma FilterGatherNext(s: seq<u64>, shift: nat, k: nat, b: nat)
    requires 0 < k <= BUCKETS
    requires GatherKeeps(s, shift, k - 1, b)
    ensures GatherKeeps(s, shift, k, b)
  {
    var g, f := Gather(s, shift, k - 1), Filter(s, shift, k - 1);
    FilterConcat(g, f, shift, b);
    FilterFilter(s, shift, b, k - 1);
    KeepStep(Filter(g + f, shift, b), Filter(g, shift, b), Filter(f, shift, b), Filter(s, shift, b), b, k);
  }

  /** `GatherKeeps` over plain sequences: `fg` is what buckets 0 .. k-2
      keep of bucket `b`, `ff` what bucket k-1 keeps of it. */
  lemma KeepStep(fgf: seq<u64>, fg: seq<u64>, ff: seq<u64>, fs: seq<u64>, b: nat, k: nat)
    requires k > 0
    requires fgf == fg + ff
    requires fg == if b < k - 1 then fs else []
    requires ff == if b == k - 1 then fs else []
    ensures fgf == if b < k then fs else []
  {
    if b < k - 1 {
      assert fg + ff == fg;
    } else if b == k - 1 {
      assert fg + ff == ff;
    } else {
      assert fg + ff == [];
    }
  }

  /** A pass is stable: the keys of each bucket leave it in the order in
      which they entered it. */
  lemma PassStable(s: seq<u64>, shift: nat, b: nat)
    requires b < BUCKETS
    ensures Filter(Pass(s, shift), shift, b) == Filter(s, shift, b)
  {
    GatherKeepsNone(s, shift, b);
    var k := 0;
    while k < BUCKETS
      invariant k <= BUCKETS
      invariant GatherKeeps(s, shift, k, b)
    {
      FilterGatherNext(s, shift, k + 1, b);
      k := k + 1;
    }
  }

  lemma GatherKeepsNone(s: seq<u64>, shift: nat, b: nat)
    ensures GatherKeeps(s, shift, 0, b)
  {
    assert Gather(s, shift, 0) == [];
  }

  // ---------------------------------------------------------------------
  // Order

  /** Every key of a bucket comes from the input. */
  lemma {:induction false} FilterIn(s: seq<u64>, shift: nat, b: nat)
    ensures forall k :: 0 <= k < |Filter(s, shift, b)| ==> Filter(s, shift, b)[k] in s
  {
    if s != [] {
      var t := s[..|s| - 1];
      FilterIn(t, shift, b);
      assert s == t + [s[|s| - 1]];
    }
  }

  /** Keeping only some keys keeps an order on the low `w` bits. */
  lemma {:induction false} FilterSorted(s: seq<u64>, shift: nat, b: nat, w: nat)
    requires SortedBy(s, w)
    ensures SortedBy(Filter(s, shift, b), w)
  {
    if s != [] {
      var t, x := s[..|s| - 1], s[|s| - 1];
      assert SortedBy(t, w);
      FilterSorted(t, shift, b, w);
      var f := Filter(s, shift, b);
      var ft := Filter(t, shift, b);
      if Digit(x, shift) == b {
        assert f == ft + [x];
        FilterIn(t, shift, b);
        forall i, j | 0 <= i < j < |f| ensures Low(f[i], w) <= Low(f[j], w) {
          if j == |f| - 1 {
            var m :| 0 <= m < |t| && t[m] == ft[i];
            assert s[m] == f[i] && s[|s| - 1] == f[j];
          } else {
            assert f[i] == ft[i] && f[j] == ft[j];
          }
        }
      }
    }
  }

  lemma ConcatSorted(a: seq<u64>, c: seq<u64>, w: nat)
    requires SortedBy(a, w) && SortedBy(c, w)
    requires forall i, j :: 0 <= i < |a| && 0 <= j < |c| ==> Low(a[i], w) <= Low(c[j], w)
    ensures SortedBy(a + c, w)
  {
    var r := a + c;
    forall i, j | 0 <= i < j < |r| ensures Low(r[i], w) <= Low(r[j], w) {
      if j < |a| {
        assert r[i] == a[i] && r[j] == a[j];
      } else if i < |a| {
        assert r[i] == a[i] && r[j] == c[j - |a|];
      } else {
        assert r[i] == c[i - |a|] && r[j] == c[j - |a|];
      }
    }
  }

  /** Buckets 0 .. k-1 hold only digits below `k` and are ordered by digit;
      if the input was ordered on its low `shift` bits, they are ordered on
      the low `shift + BITS` bits. */
  lemma {:induction false} GatherOrdered(s: seq<u64>, shift: nat, k: nat)
    requires k <= BUCKETS
    ensures forall i :: 0 <= i < |Gather(s, shift, k)| ==> Digit(Gather(s, shift, k)[i], shift) < k
    ensures SortedByDigit(Gather(s, shift, k), shift)
    ensures SortedBy(s, shift) ==> SortedBy(Gather(s, shift, k), shift + BITS)
  {
    if k > 0 {
      GatherOrdered(s, shift, k - 1);
      var a, f := Gather(s, shift, k - 1), Filter(s, shift, k - 1);
      var g := a + f;
      assert g == Gather(s, shift, k);
      FilterDigit(s, shift, k - 1);
      forall i, j | 0 <= i < j < |g| ensures Digit(g[i], shift) <= Digit(g[j], shift) {
        if j < |a| {
          assert g[i] == a[i] && g[j] == a[j];
        } else if i < |a| {
          assert g[i] == a[i] && g[j] == f[j - |a|];
        } else {
          assert g[i] == f[i - |a|] && g[j] == f[j - |a|];
        }
      }
      if SortedBy(s, shift) {
        FilterSorted(s, shift, k - 1, shift);
        forall i, j | 0 <= i < j < |f| ensures Low(f[i], shift + BITS) <= Low(f[j], shift + BITS) {
          LowOrderSameDigit(f[i], f[j], shift);
        }
        forall i, j | 0 <= i < |a| && 0 <= j < |f| ensures Low(a[i], shift + BITS) <= Low(f[j], shift + BITS) {
          LowOrderByDigit(a[i], f[j], shift);
        }
        ConcatSorted(a, f, shift + BITS);
      }
    }
  }

  /** A pass leaves the keys ordered by the digit it sorted on, and extends
      an order on the low `shift` bits to the low `shift + BITS` bits. */
  lemma PassOrdered(s: seq<u64>, shift: nat)
    ensures SortedByDigit(Pass(s, shift), shift)
    ensures SortedBy(s, shift) ==> SortedBy(Pass(s, shift), shift + BITS)
  {
    GatherOrdered(s, shift, BUCKETS);
  }

  // ---------------------------------------------------------------------
  // The scatter's layout of a pass

  /** `d` holds, at `BucketStart(b) + j`, the `j`-th key of bucket `b`, for
      every bucket `b` below `k`. */
  ghost predicate LaidOut(d: seq<u64>, s: seq<u64>, shift: nat, k: nat)
    requires k <= BUCKETS
  {
    (forall b :: 0 <= b < k ==> BucketStart(s, shift, b) + Count(s, shift, b) <= |d|)
    && (forall b, j :: 0 <= b < k && 0 <= j < Count(s, shift, b) ==>
          d[BucketStart(s, shift, b) + j] == Filter(s, shift, b)[j])
  }

  lemma {:induction false} LayoutIsGather(d: seq<u64>, s: seq<u64>, shift: nat, k: nat)
    requires k <= BUCKETS
    requires BucketStart(s, shift, k) <= |d|
    requires LaidOut(d, s, shift, k)
    ensures d[..BucketStart(s, shift, k)] == Gather(s, shift, k)
  {
    if k > 0 {
      var lo, hi := BucketStart(s, shift, k - 1), BucketStart(s, shift, k);
      BucketStartNext(s, shift, k - 1);
      LaidOutPrefix(d, s, shift, k);
      LayoutIsGather(d, s, shift, k - 1);
      BucketSlice(d, s, shift, k - 1, k);
      TakeSplit(d, lo, hi);
    }
  }

  lemma TakeSplit(d: seq<u64>, lo: nat, hi: nat)
    requires lo <= hi <= |d|
    ensures d[..hi] == d[..lo] + d[lo..hi]
  {
  }

  lemma SliceOf(d: seq<u64>, lo: nat, f: seq<u64>)
    requires lo + |f| <= |d|
    requires forall j :: 0 <= j < |f| ==> d[lo + j] == f[j]
    ensures d[lo..lo + |f|] == f
  {
    forall j | 0 <= j < |f| ensures d[lo..lo + |f|][j] == f[j] {
      assert d[lo..lo + |f|][j] == d[lo + j];
    }
  }

  lemma LaidOutPrefix(d: seq<u64>, s: seq<u64>, shift: nat, k: nat)
    requires 0 < k <= BUCKETS && LaidOut(d, s, shift, k)
    ensures LaidOut(d, s, shift, k - 1)
  {
  }

  /** Bucket `b` of a layout occupies its region. */
  lemma BucketSlice(d: seq<u64>, s: seq<u64>, shift: nat, b: nat, k: nat)
    requires b < k <= BUCKETS && LaidOut(d, s, shift, k)
    ensures BucketStart(s, shift, b) + Count(s, shift, b) <= |d|
    ensures d[BucketStart(s, shift, b)..BucketStart(s, shift, b) + Count(s, shift, b)] == Filter(s, shift, b)
  {
    SliceOf(d, BucketStart(s, shift, b), Filter(s, shift, b));
  }

  /** A sequence as long as the input that holds every bucket's keys at the
      bucket's offsets is the result of the pass. */
  lemma LayoutIsPass(d: seq<u64>, s: seq<u64>, shift: nat)
    requires |d| == |s|
    requires LaidOut(d, s, shift, BUCKETS)
    ensures d == Pass(s, shift)
  {
    HistogramConservation(s, shift);
    LayoutIsGather(d, s, shift, BUCKETS);
    assert d[..|d|] == d;
  }
}
