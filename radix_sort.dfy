/** `radix_sort_single_lsb<uint64_t>`: the sequential LSD radix sort over two
    buffers of `n` keys. Each pass counts the digits into `hist`, turns the
    counts into bucket starts in `offsets`, scatters each key to
    `offsets[bucket]++`, and swaps the roles of the two buffers. The loops of
    one pass are written as the methods `CountDigits`, `BucketOffsets` and
    `Scatter`. */
module RadixSort {
  import opened Arith
  import opened CountingPass
  import LsdSort

  /** Fill `hist` with the histogram of the first `n` keys of `src` on the
      digit at `shift` (the `std::fill` and the counting loop). */
  method CountDigits(src: array<u64>, n: nat, shift: nat, hist: array<u32>)
    requires n == src.Length && n < U32_LIMIT
    requires hist.Length == BUCKETS
    modifies hist
    ensures forall b :: 0 <= b < BUCKETS ==> hist[b] == Count(src[..], shift, b)
  {
    forall b | 0 <= b < BUCKETS {
      hist[b] := 0;
    }
    for i := 0 to n
      invariant forall b :: 0 <= b < BUCKETS ==> hist[b] == Count(src[..i], shift, b)
    {
      var bucket := Digit(src[i], shift);
      assert src[..i + 1][..i] == src[..i];
      CountBound(src[..i], shift, bucket);
      hist[bucket] := hist[bucket] + 1;
    }
    assert src[..n] == src[..];
  }

  /** Fill `offsets` with the exclusive prefix sum of `hist`:
      `offsets[0] = 0` and `offsets[b + 1] = offsets[b] + hist[b]`. */
  method BucketOffsets(hist: array<u32>, offsets: array<u64>)
    requires hist.Length == BUCKETS && offsets.Length == BUCKETS + 1
    modifies offsets
    ensures forall b :: 0 <= b <= BUCKETS ==> offsets[b] == PrefixSum(hist[..], b)
  {
    ghost var h := hist[..];
    PrefixSumBound(h, BUCKETS, U32_LIMIT);
    offsets[0] := 0;
    for b := 0 to BUCKETS
      invariant forall c {:trigger offsets[c]} :: 0 <= c <= b ==> offsets[c] == PrefixSum(h, c)
    {
      PrefixSumMonotone(h, b + 1, BUCKETS);
      offsets[b + 1] := offsets[b] + hist[b];
    }
  }

  /** Where each bucket's region of the output begins, for buckets 0 .. 2048. */
  function Starts(s: seq<u64>, shift: nat): (st: seq<nat>)
    ensures |st| == BUCKETS + 1
  {
    seq(BUCKETS + 1, b requires 0 <= b <= BUCKETS => BucketStart(s, shift, b))
  }

  /** The keys of each bucket, in input order. */
  function Buckets(s: seq<u64>, shift: nat): (fs: seq<seq<u64>>)
    ensures |fs| == BUCKETS
  {
    seq(BUCKETS, b requires 0 <= b < BUCKETS => Filter(s, shift, b))
  }

  /** `st` cuts `0 .. n` into consecutive regions, bucket `b`'s of length
      `cs[b]`. */
  ghost predicate Regions(st: seq<nat>, cs: seq<nat>, n: nat)
  {
    |st| == BUCKETS + 1 && |cs| == BUCKETS && st[BUCKETS] == n
    && (forall b :: 0 <= b < BUCKETS ==> st[b + 1] == st[b] + cs[b])
    && (forall b1, b2 :: 0 <= b1 <= b2 <= BUCKETS ==> st[b1] <= st[b2])
  }

  /** The state of the scatter: bucket `b`, whose region starts at `st[b]`
      and holds `cs[b]` keys, has received the `cd[b]` keys `fd[b]`, which
      sit in order from the start of its region, and `offs[b]` is the next
      free slot of the region. */
  ghost predicate Slots(d: seq<u64>, offs: seq<u64>, st: seq<nat>, cs: seq<nat>, cd: seq<nat>, fd: seq<seq<u64>>)
  {
    |st| == BUCKETS + 1 && |cs| == BUCKETS && |cd| == BUCKETS && |fd| == BUCKETS && |offs| == BUCKETS + 1
    && (forall b :: 0 <= b < BUCKETS ==> offs[b] == st[b] + cd[b] && cd[b] <= cs[b] && |fd[b]| == cd[b])
    && offs[BUCKETS] == st[BUCKETS]
    && Filled(d, st, fd)
  }

  /** The keys `fd[b]` sit in order from the start `st[b]` of bucket `b`'s
      region of `d`. */
  ghost predicate Filled(d: seq<u64>, st: seq<nat>, fd: seq<seq<u64>>)
  {
    |st| == BUCKETS + 1 && |fd| == BUCKETS
    && (forall b :: 0 <= b < BUCKETS ==> st[b] + |fd[b]| <= |d|)
    && (forall b, j :: 0 <= b < BUCKETS && 0 <= j < |fd[b]| ==> d[st[b] + j] == fd[b][j])
  }

  /** Writing `key` to the next free slot of its bucket and advancing that
      slot writes inside the bucket's region and keeps the scatter's state,
      provided the region still has room. */
  lemma SlotsStep(d: seq<u64>, offs: seq<u64>, st: seq<nat>, cs: seq<nat>, cd: seq<nat>, fd: seq<seq<u64>>, bucket: nat, key: u64)
    requires |d| < U64_LIMIT
    requires Regions(st, cs, |d|) && Slots(d, offs, st, cs, cd, fd)
    requires bucket < BUCKETS && cd[bucket] < cs[bucket]
    ensures st[bucket] <= offs[bucket] < st[bucket + 1] <= |d|
    ensures Slots(d[offs[bucket] := key], offs[bucket := offs[bucket] + 1], st, cs,
                  cd[bucket := cd[bucket] + 1], fd[bucket := fd[bucket] + [key]])
  {
    var slot := offs[bucket];
    assert slot < st[bucket + 1] <= st[BUCKETS];
    var d', offs' := d[slot := key], offs[bucket := slot + 1];
    var cd', fd' := cd[bucket := cd[bucket] + 1], fd[bucket := fd[bucket] + [key]];
    forall b | 0 <= b < BUCKETS
      ensures offs'[b] == st[b] + cd'[b] && cd'[b] <= cs[b] && |fd'[b]| == cd'[b]
    {
      if b == bucket {
        assert |fd[b] + [key]| == cd[b] + 1;
      }
    }
    assert offs'[BUCKETS] == st[BUCKETS];
    FilledStep(d, offs, st, cs, cd, fd, bucket, key);
  }

  lemma FilledStep(d: seq<u64>, offs: seq<u64>, st: seq<nat>, cs: seq<nat>, cd: seq<nat>, fd: seq<seq<u64>>, bucket: nat, key: u64)
    requires Regions(st, cs, |d|) && Slots(d, offs, st, cs, cd, fd)
    requires bucket < BUCKETS && cd[bucket] < cs[bucket]
    ensures offs[bucket] < |d| && Filled(d[offs[bucket] := key], st, fd[bucket := fd[bucket] + [key]])
  {
    assert offs[bucket] < st[bucket + 1] <= st[BUCKETS];
    var d', fd' := d[offs[bucket] := key], fd[bucket := fd[bucket] + [key]];
    forall b | 0 <= b < BUCKETS
      ensures st[b] + |fd'[b]| <= |d'|
    {
      assert st[b] + cs[b] == st[b + 1] <= st[BUCKETS];
    }
    forall b, j | 0 <= b < BUCKETS && 0 <= j < |fd'[b]|
      ensures d'[st[b] + j] == fd'[b][j]
    {
      SlotWrite(d, offs, st, cs, cd, fd, bucket, key, b, j);
    }
  }

  /** The slot `st[b] + j` of bucket `b` after `SlotsStep`'s write. */
  lemma SlotWrite(d: seq<u64>, offs: seq<u64>, st: seq<nat>, cs: seq<nat>, cd: seq<nat>, fd: seq<seq<u64>>, bucket: nat, key: u64, b: nat, j: nat)
    requires Regions(st, cs, |d|) && Slots(d, offs, st, cs, cd, fd)
    requires bucket < BUCKETS && cd[bucket] < cs[bucket]
    requires b < BUCKETS && j < |fd[bucket := fd[bucket] + [key]][b]|
    ensures st[b] + j < |d| && offs[bucket] < |d|
      && d[offs[bucket] := key][st[b] + j] == fd[bucket := fd[bucket] + [key]][b][j]
  {
    var slot := offs[bucket];
    assert slot < st[bucket + 1] <= st[BUCKETS];
    if b != bucket {
      if b < bucket {
        assert st[b + 1] <= st[bucket];
      } else {
        assert st[bucket + 1] <= st[b];
      }
      assert st[b] + j != slot;
    } else if j < cd[bucket] {
      assert st[b] + j != slot;
      assert (fd[bucket] + [key])[j] == fd[b][j];
    } else {
      assert st[b] + j == slot;
      assert (fd[bucket] + [key])[j] == key;
    }
  }

  lemma StartsRegions(s: seq<u64>, shift: nat)
    ensures Regions(Starts(s, shift), Histogram(s, shift), |s|)
  {
    BucketStartMonotone(s, shift);
    forall b | 0 <= b < BUCKETS
      ensures Starts(s, shift)[b + 1] == Starts(s, shift)[b] + Histogram(s, shift)[b]
    {
      BucketStartNext(s, shift, b);
    }
  }

  /** Bucket regions follow one another. */
  lemma BucketStartMonotone(s: seq<u64>, shift: nat)
    ensures forall b1, b2 :: 0 <= b1 <= b2 <= BUCKETS ==> BucketStart(s, shift, b1) <= BucketStart(s, shift, b2)
    ensures BucketStart(s, shift, BUCKETS) == |s|
  {
    HistogramConservation(s, shift);
    forall b1, b2 | 0 <= b1 <= b2 <= BUCKETS
      ensures BucketStart(s, shift, b1) <= BucketStart(s, shift, b2)
    {
      PrefixSumMonotone(Histogram(s, shift), b1, b2);
    }
  }

  /** Appending a key adds one to its own bucket's count and appends it to
      its own bucket. */
  lemma BucketsSnoc(s: seq<u64>, x: u64, shift: nat)
    ensures var b := Digit(x, shift);
      Histogram(s + [x], shift) == Histogram(s, shift)[b := Histogram(s, shift)[b] + 1]
      && Buckets(s + [x], shift) == Buckets(s, shift)[b := Buckets(s, shift)[b] + [x]]
  {
    var d := Digit(x, shift);
    var f, f' := Buckets(s, shift), Buckets(s + [x], shift);
    var h, h' := Histogram(s, shift), Histogram(s + [x], shift);
    forall b | 0 <= b < BUCKETS
      ensures f'[b] == f[d := f[d] + [x]][b] && h'[b] == h[d := h[d] + 1][b]
    {
      FilterSnoc(s, x, shift, b);
      assert f'[b] == Filter(s + [x], shift, b) && f[b] == Filter(s, shift, b);
      assert h'[b] == |f'[b]| && h[b] == |f[b]|;
    }
    assert f' == f[d := f[d] + [x]];
    assert h' == h[d := h[d] + 1];
  }

  /** Before key `i` is placed, its bucket's region still has room. */
  lemma RoomLeft(s: seq<u64>, i: nat, shift: nat)
    requires i < |s|
    ensures Histogram(s[..i], shift)[Digit(s[i], shift)] < Histogram(s, shift)[Digit(s[i], shift)]
  {
    CountBelowTotal(s, shift, Digit(s[i], shift), i);
  }

  /** `BucketsSnoc` for the prefixes `s[..i]` and `s[..i + 1]`. */
  lemma PrefixSnoc(s: seq<u64>, i: nat, shift: nat)
    requires i < |s|
    ensures var b := Digit(s[i], shift);
      Histogram(s[..i + 1], shift) == Histogram(s[..i], shift)[b := Histogram(s[..i], shift)[b] + 1]
      && Buckets(s[..i + 1], shift) == Buckets(s[..i], shift)[b := Buckets(s[..i], shift)[b] + [s[i]]]
  {
    BucketsSnoc(s[..i], s[i], shift);
    assert s[..i] + [s[i]] == s[..i + 1];
  }

  /** Before the scatter, every bucket is empty and its next free slot is
      the start of its region. */
  lemma SlotsEmpty(d: seq<u64>, offs: seq<u64>, st: seq<nat>, cs: seq<nat>, cd: seq<nat>, fd: seq<seq<u64>>)
    requires Regions(st, cs, |d|) && |offs| == BUCKETS + 1 && |cd| == BUCKETS && |fd| == BUCKETS
    requires forall b :: 0 <= b <= BUCKETS ==> offs[b] == st[b]
    requires forall b :: 0 <= b < BUCKETS ==> cd[b] == 0 && fd[b] == []
    ensures Slots(d, offs, st, cs, cd, fd)
  {
    forall b | 0 <= b < BUCKETS
      ensures st[b] + |fd[b]| <= |d|
    {
      assert st[b] <= st[BUCKETS];
    }
  }

  /** The empty input has no keys in any bucket. */
  lemma EmptyBuckets(shift: nat)
    ensures forall b :: 0 <= b < BUCKETS ==> Histogram([], shift)[b] == 0 && Buckets([], shift)[b] == []
  {
  }

  /** The scatter's loop invariant once the first `i` keys of `s` are
      placed, in terms of the bucket starts and sizes of the pass of `s` and
      the bucket sizes and contents of `s[..i]`. */
  ghost predicate ScatterInv(d: seq<u64>, offs: seq<u64>, s: seq<u64>, i: nat, shift: nat)
  {
    i <= |s| && |d| == |s| && |s| < U64_LIMIT
    && Regions(Starts(s, shift), Histogram(s, shift), |s|)
    && Slots(d, offs, Starts(s, shift), Histogram(s, shift), Histogram(s[..i], shift), Buckets(s[..i], shift))
  }

  lemma ScatterInvStart(d: seq<u64>, offs: seq<u64>, s: seq<u64>, shift: nat)
    requires |d| == |s| && |s| < U64_LIMIT && |offs| == BUCKETS + 1
    requires forall b :: 0 <= b <= BUCKETS ==> offs[b] == BucketStart(s, shift, b)
    ensures ScatterInv(d, offs, s, 0, shift)
  {
    StartsRegions(s, shift);
    EmptyBuckets(shift);
    SlotsEmpty(d, offs, Starts(s, shift), Histogram(s, shift), Histogram([], shift), Buckets([], shift));
    assert s[..0] == [];
  }

  /** Placing key `i` at the next free slot of its bucket keeps the
      invariant, and that slot lies inside the output. */
  lemma ScatterInvStep(d: seq<u64>, offs: seq<u64>, s: seq<u64>, i: nat, shift: nat)
    requires ScatterInv(d, offs, s, i, shift) && i < |s|
    ensures var b := Digit(s[i], shift);
      offs[b] < |d| && offs[b] + 1 < U64_LIMIT
      && ScatterInv(d[offs[b] := s[i]], offs[b := offs[b] + 1], s, i + 1, shift)
  {
    var bucket := Digit(s[i], shift);
    var st, cs := Starts(s, shift), Histogram(s, shift);
    var cd, fd := Histogram(s[..i], shift), Buckets(s[..i], shift);
    RoomLeft(s, i, shift);
    SlotsStep(d, offs, st, cs, cd, fd, bucket, s[i]);
    PrefixSnoc(s, i, shift);
  }

  /** Once every key is placed, `d` is the pass of `s` and `offs[b]` is
      where bucket `b` ends. */
  lemma ScatterInvDone(d: seq<u64>, offs: seq<u64>, s: seq<u64>, shift: nat)
    requires ScatterInv(d, offs, s, |s|, shift)
    ensures d == Pass(s, shift)
    ensures forall b :: 0 <= b < BUCKETS ==> offs[b] == BucketStart(s, shift, b + 1)
  {
    assert s[..|s|] == s;
    ScatterDone(d, offs, s, shift);
  }

  lemma ScatterDone(d: seq<u64>, offs: seq<u64>, s: seq<u64>, shift: nat)
    requires |d| == |s|
    requires Slots(d, offs, Starts(s, shift), Histogram(s, shift), Histogram(s, shift), Buckets(s, shift))
    ensures d == Pass(s, shift)
    ensures forall b :: 0 <= b < BUCKETS ==> offs[b] == BucketStart(s, shift, b + 1)
  {
    OffsetsDone(d, offs, s, shift);
    FilledIsLaidOut(d, s, shift);
    LayoutIsPass(d, s, shift);
  }

  /** Once every key is placed, each bucket's next free slot is where the
      bucket ends. */
  lemma OffsetsDone(d: seq<u64>, offs: seq<u64>, s: seq<u64>, shift: nat)
    requires Slots(d, offs, Starts(s, shift), Histogram(s, shift), Histogram(s, shift), Buckets(s, shift))
    ensures forall b :: 0 <= b < BUCKETS ==> offs[b] == BucketStart(s, shift, b + 1)
  {
    var st, h := Starts(s, shift), Histogram(s, shift);
    forall b | 0 <= b < BUCKETS
      ensures offs[b] == BucketStart(s, shift, b + 1)
    {
      BucketStartNext(s, shift, b);
      assert offs[b] == st[b] + h[b];
    }
  }

  /** Every bucket filled with all its keys is the layout of the pass. */
  lemma FilledIsLaidOut(d: seq<u64>, s: seq<u64>, shift: nat)
    requires Filled(d, Starts(s, shift), Buckets(s, shift))
    ensures LaidOut(d, s, shift, BUCKETS)
  {
    var st, fd := Starts(s, shift), Buckets(s, shift);
    forall b | 0 <= b < BUCKETS
      ensures BucketStart(s, shift, b) + Count(s, shift, b) <= |d|
    {
      assert st[b] == BucketStart(s, shift, b) && |fd[b]| == Count(s, shift, b);
    }
    forall b, j | 0 <= b < BUCKETS && 0 <= j < Count(s, shift, b)
      ensures d[BucketStart(s, shift, b) + j] == Filter(s, shift, b)[j]
    {
      assert st[b] == BucketStart(s, shift, b) && fd[b] == Filter(s, shift, b);
      FilledAt(d, st, fd, b, j);
    }
  }

  lemma FilledAt(d: seq<u64>, st: seq<nat>, fd: seq<seq<u64>>, b: nat, j: nat)
    requires Filled(d, st, fd)
    requires b < BUCKETS && j < |fd[b]|
    ensures st[b] + j < |d| && d[st[b] + j] == fd[b][j]
  {
  }

  /** `dst[offsets[bucket]++] = key` */
  method PlaceKey(dst: array<u64>, offsets: array<u64>, bucket: nat, key: u64)
    requires dst != offsets && bucket < offsets.Length
    requires offsets[bucket] < dst.Length && offsets[bucket] + 1 < U64_LIMIT
    modifies dst, offsets
    ensures dst[..] == old(dst[..])[old(offsets[bucket]) := key]
    ensures offsets[..] == old(offsets[..])[bucket := old(offsets[bucket]) + 1]
  {
    dst[offsets[bucket]] := key;
    offsets[bucket] := offsets[bucket] + 1;
  }

  /** Move every key of `src` to `dst[offsets[bucket]++]`, in input order.
      On entry `offsets` holds the bucket starts of `src`; on exit `dst` is
      the stable pass of `src` and `offsets[b]` is where bucket `b` ends. */
  method Scatter(src: array<u64>, dst: array<u64>, n: nat, shift: nat, offsets: array<u64>)
    requires src != dst && offsets != src && offsets != dst
    requires n == src.Length == dst.Length && n < U64_LIMIT
    requires offsets.Length == BUCKETS + 1
    requires forall b :: 0 <= b <= BUCKETS ==> offsets[b] == BucketStart(src[..], shift, b)
    modifies dst, offsets
    ensures dst[..] == Pass(src[..], shift)
    ensures forall b :: 0 <= b < BUCKETS ==> offsets[b] == BucketStart(src[..], shift, b + 1)
  {
    ghost var s, d, offs := src[..], dst[..], offsets[..];
    ScatterInvStart(d, offs, s, shift);
    for i := 0 to n
      invariant dst[..] == d && offsets[..] == offs
      invariant ScatterInv(d, offs, s, i, shift)
    {
      var key := src[i];
      assert key == s[i];
      var bucket := Digit(key, shift);
      ScatterInvStep(d, offs, s, i, shift);
      PlaceKey(dst, offsets, bucket, key);
      d, offs := d[offs[bucket] := key], offs[bucket := offs[bucket] + 1];
    }
    ScatterInvDone(d, offs, s, shift);
  }

  lemma HistogramIsCounts(h: seq<nat>, s: seq<u64>, shift: nat)
    requires |h| == BUCKETS
    requires forall b :: 0 <= b < BUCKETS ==> h[b] == Count(s, shift, b)
    ensures forall b :: 0 <= b <= BUCKETS ==> PrefixSum(h, b) == BucketStart(s, shift, b)
  {
    assert h == Histogram(s, shift);
  }

  /** One pass of the loop in `radix_sort_single_lsb`: count, prefix sum,
      scatter from `src` into `dst`. */
  method RunPass(src: array<u64>, dst: array<u64>, n: nat, shift: nat, hist: array<u32>, offsets: array<u64>)
    requires src != dst && offsets != src && offsets != dst
    requires n == src.Length == dst.Length && n < U32_LIMIT
    requires hist.Length == BUCKETS && offsets.Length == BUCKETS + 1
    modifies dst, hist, offsets
    ensures dst[..] == Pass(src[..], shift)
  {
    CountDigits(src, n, shift, hist);
    BucketOffsets(hist, offsets);
    HistogramIsCounts(hist[..], src[..], shift);
    Scatter(src, dst, n, shift, offsets);
  }

  method SortPass(src: array<u64>, dst: array<u64>, n: nat, pass: nat, hist: array<u32>, offsets: array<u64>, ghost keys: seq<u64>)
    requires src != dst && offsets != src && offsets != dst
    requires n == src.Length == dst.Length && n < U32_LIMIT
    requires hist.Length == BUCKETS && offsets.Length == BUCKETS + 1
    requires src[..] == LsdSort.AfterPasses(keys, pass)
    modifies dst, hist, offsets
    ensures dst[..] == LsdSort.AfterPasses(keys, pass + 1)
  {
    RunPass(src, dst, n, pass * BITS, hist, offsets);
    LsdSort.AfterPassesNext(keys, pass);
  }

  lemma Parity(p: nat)
    ensures (p + 1) % 2 == 0 <==> p % 2 != 0
  {
  }

  /** `std::copy(src, src + n, out)` */
  method CopyKeys(src: array<u64>, out: array<u64>, n: nat)
    requires src != out && src.Length == n && out.Length == n
    modifies out
    ensures out[..] == old(src[..]) && src[..] == old(src[..])
  {
    forall k | 0 <= k < n {
      out[k] := src[k];
    }
  }

  /** `radix_sort_single_lsb<uint64_t>(in, out, n)`: sorts the `n` keys of
      `inp` into `out`, using `inp` as the second buffer. */
  method RadixSortSingleLsb(inp: array<u64>, out: array<u64>, n: nat)
    requires inp != out
    requires inp.Length == n && out.Length == n
    requires n < U32_LIMIT
    modifies inp, out
    ensures out[..] == LsdSort.Sort(old(inp[..]))
    ensures inp[..] == out[..]
  {
    ghost var keys := inp[..];
    ghost var cur := keys;
    var hist := new u32[BUCKETS];
    var offsets := new u64[BUCKETS + 1];
    var src, dst := inp, out;
    var pass := 0;
    while pass < PASSES
      invariant 0 <= pass <= PASSES
      invariant if pass % 2 == 0 then src == inp && dst == out else src == out && dst == inp
      invariant src[..] == cur && cur == LsdSort.AfterPasses(keys, pass)
      invariant fresh(hist) && fresh(offsets)
    {
      SortPass(src, dst, n, pass, hist, offsets, keys);
      cur := dst[..];
      Parity(pass);
      src, dst := dst, src;
      pass := pass + 1;
    }
    if src != out {
      CopyKeys(src, out, n);
    }
  }
}
