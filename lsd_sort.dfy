/** The meaning of the whole sequential sort: `PASSES` counting passes, the
    pass numbered `p` on the digit at bit `p * BITS`, least significant
    digit first. */
module LsdSort {
  import opened Arith
  import opened CountingPass

  /** The keys after the first `p` passes. */
  function AfterPasses(s: seq<u64>, p: nat): seq<u64>
  {
    if p == 0 then s else Pass(AfterPasses(s, p - 1), (p - 1) * BITS)
  }

  lemma AfterPassesNext(s: seq<u64>, p: nat)
    ensures AfterPasses(s, p + 1) == Pass(AfterPasses(s, p), p * BITS)
  {
  }

  /** The result of the sort. */
  function Sort(s: seq<u64>): seq<u64>
  {
    AfterPasses(s, PASSES)
  }

  ghost predicate Sorted(s: seq<u64>)
  {
    forall i, j :: 0 <= i < j < |s| ==> s[i] <= s[j]
  }

  /** The LSD invariant: after `p` passes the keys are a permutation of the
      input ordered on their low `p * BITS` bits. */
  ghost predicate Invariant(s: seq<u64>, p: nat)
  {
    var r := AfterPasses(s, p);
    multiset(r) == multiset(s) && |r| == |s| && SortedBy(r, p * BITS)
  }

  lemma {:induction false} LsdInvariant(s: seq<u64>, p: nat)
    ensures Invariant(s, p)
  {
    if p == 0 {
      SortedByZero(s);
    } else {
      LsdInvariant(s, p - 1);
      var t, w := AfterPasses(s, p - 1), (p - 1) * BITS;
      LsdStep(t, w);
      assert w + BITS == p * BITS;
    }
  }

  /** One pass keeps the keys and widens their order by one digit. */
  lemma LsdStep(t: seq<u64>, w: nat)
    requires SortedBy(t, w)
    ensures multiset(Pass(t, w)) == multiset(t) && |Pass(t, w)| == |t|
    ensures SortedBy(Pass(t, w), w + BITS)
  {
    PassPermutation(t, w);
    PassOrdered(t, w);
  }

  /** Every sequence is ordered on its low 0 bits. */
  lemma SortedByZero(s: seq<u64>)
    ensures SortedBy(s, 0)
  {
    assert Pow2(0) == 1;
    forall i | 0 <= i < |s| ensures Low(s[i], 0) == 0 {
    }
  }

  /** A 64-bit key equals its low 66 bits. */
  lemma LowOfKey(x: u64)
    ensures Low(x, PASSES * BITS) == x
  {
    Pow2Of64();
    Pow2Monotone(64, PASSES * BITS);
    DivModUnique(x, Pow2(PASSES * BITS), 0, x);
  }

  /** After all passes the keys are in ascending order and are a
      permutation of the input. */
  lemma SortCorrect(s: seq<u64>)
    ensures Sorted(Sort(s))
    ensures multiset(Sort(s)) == multiset(s)
    ensures |Sort(s)| == |s|
  {
    LsdInvariant(s, PASSES);
    var r := Sort(s);
    forall i, j | 0 <= i < j < |r| ensures r[i] <= r[j] {
      LowOfKey(r[i]);
      LowOfKey(r[j]);
    }
  }

  /** The first key of an ascending sequence is its least. */
  lemma SortedHead(a: seq<u64>, b: seq<u64>)
    requires Sorted(a) && Sorted(b) && a != [] && multiset(a) == multiset(b)
    ensures b != [] && a[0] == b[0]
  {
    assert a[0] in multiset(b);
    assert b != [];
    assert b[0] in multiset(a);
    var i :| 0 <= i < |b| && b[i] == a[0];
    var j :| 0 <= j < |a| && a[j] == b[0];
    assert b[0] <= b[i];
    assert a[0] <= a[j];
  }

  /** There is only one ascending arrangement of a multiset of keys. */
  lemma {:induction false} SortedUnique(a: seq<u64>, b: seq<u64>)
    requires Sorted(a) && Sorted(b)
    requires multiset(a) == multiset(b)
    ensures a == b
  {
    if a == [] {
      assert |b| == |multiset(b)| == 0;
    } else {
      SortedHead(a, b);
      assert a == [a[0]] + a[1..];
      assert b == [b[0]] + b[1..];
      assert multiset(a[1..]) == multiset(a) - multiset{a[0]} by {
        assert multiset(a) == multiset{a[0]} + multiset(a[1..]);
      }
      assert multiset(b[1..]) == multiset(b) - multiset{b[0]} by {
        assert multiset(b) == multiset{b[0]} + multiset(b[1..]);
      }
      assert Sorted(a[1..]) && Sorted(b[1..]);
      SortedUnique(a[1..], b[1..]);
    }
  }

  /** Sorting keys that are already in ascending order leaves them as they
      are; in particular a single key and keys that are all equal. */
  lemma SortIdempotent(s: seq<u64>)
    requires Sorted(s)
    ensures Sort(s) == s
  {
    SortCorrect(s);
    SortedUnique(Sort(s), s);
  }

  lemma SortSingleton(x: u64)
    ensures Sort([x]) == [x]
  {
    SortIdempotent([x]);
  }

  /** Sorting twice is sorting once. */
  lemma SortTwice(s: seq<u64>)
    ensures Sort(Sort(s)) == Sort(s)
  {
    SortCorrect(s);
    SortIdempotent(Sort(s));
  }
}
