/** The launch geometry of `run_opencl_radix`: 8-bit digits, 256 buckets,
    work groups of 256 items, as many groups as it takes to cover `n` keys,
    and 8 passes for 64-bit keys. */
module OpenClConfig {
  import opened Arith

  const CL_BITS: nat := 8
  const RADIX: nat := 256
  const LOCAL_SIZE: nat := 256
  const CL_PASSES: nat := 8

  /** `(N + LOCAL_SZ - 1) / LOCAL_SZ` */
  function NumGroups(n: nat): nat
  {
    (n + LOCAL_SIZE - 1) / LOCAL_SIZE
  }

  /** `NUM_GROUPS * LOCAL_SZ` */
  function GlobalSize(n: nat): nat
  {
    NumGroups(n) * LOCAL_SIZE
  }

  /** `RADIX` is `1 << BITS` and `PASSES` is `(64 + BITS - 1) / BITS`; the
      passes cover the 64 bits of a key exactly. */
  lemma ConstantsAgree()
    ensures RADIX == Pow2(CL_BITS)
    ensures CL_PASSES == (64 + CL_BITS - 1) / CL_BITS
    ensures CL_PASSES * CL_BITS == 64
  {
  }

  /** `NUM_GROUPS` is `n / 256` rounded up, so the global range covers every
      key and overshoots by less than one group. */
  lemma GeometryCovers(n: nat)
    ensures GlobalSize(n) >= n
    ensures GlobalSize(n) < n + LOCAL_SIZE
    ensures n == 0 <==> NumGroups(n) == 0
    ensures n > 0 ==> (NumGroups(n) - 1) * LOCAL_SIZE < n
  {
    var q := NumGroups(n);
    assert (n + 255) == q * 256 + (n + 255) % 256;
  }

  /** With fewer than 2^32 keys there are at most 2^24 groups. */
  lemma GroupsBound(n: nat)
    requires n < U32_LIMIT
    ensures NumGroups(n) <= 0x100_0000
  {
    GeometryCovers(n);
  }
}
