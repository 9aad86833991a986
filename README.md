# LSD radix sort of 64-bit keys: the sequential sort and the OpenCL host stage

This project models the radix-sort core of a small sorting benchmark in
Dafny, and proves properties of the model. Two parts are modelled.

The first is `radix_sort_single_lsb<uint64_t>`, the sequential
least-significant-digit radix sort. It works on 11-bit digits, with 2048
buckets and 6 passes. Each pass:

- counts the digit of every key into `hist`;
- turns the counts into bucket starts in `offsets`;
- scatters every key, in input order, to `dst[offsets[bucket]++]`;
- swaps the `src` and `dst` buffers.

When the last pass leaves the keys in the caller's `in` array, they are
copied into `out`.

The second part is the host side of `run_opencl_radix`, which works on
8-bit digits, with 256 buckets, 8 passes and work groups of 256 keys. It
covers:

- the launch geometry;
- the offset stage the host computes from the per-group histogram that the
  device returns each pass: bucket totals `bt`, bucket starts `pg` and
  per-group offsets `go`;
- the byte counters kept by the `ENQUEUE_WRITE` and `ENQUEUE_READ`
  wrappers;
- the swap of the two key buffers, which decides which buffer is read back.

The modules are:

- `Arith`: machine widths, modelled as `u32` and `u64` subset types of
  `nat`; powers of two; `uint32_t` addition, which wraps modulo 2^32; and
  prefix sums.
- `CountingPass`: what one sequential pass means. `Pass(s, shift)` is the
  concatenation, for bucket 0 to 2047 in turn, of the keys of that bucket
  in input order. The module proves that a pass is a permutation, is
  stable, and orders the keys on its digit.
- `LsdSort`: `Sort(s)`, which is six passes, and the LSD invariant. After
  `p` passes the keys are a permutation of the input, ordered on their low
  `11 * p` bits. Hence `Sort` returns the keys in ascending order.
- `RadixSort`: the imperative sort over two `array<u64>`. It has one method
  for each loop of a pass and the driver `RadixSortSingleLsb`, all proved
  against `CountingPass.Pass` and `LsdSort.Sort`.
- `OpenClConfig`: the constants of `run_opencl_radix` and the number of
  work groups.
- `OpenClOffsets`: the host loops that fill `bt`, `pg` and `go`, modelled
  as methods over arrays with the `uint32_t` wrap-around. Specification
  functions state the exact sums, and lemmas describe the place each key is
  given in the output.
- `OpenClHost`: the byte counters as a class, and the pass loop as seen
  from the host.

Two points about the code that the model follows:

- With N = 0 the sequential sort still runs all six passes, over loops
  that do nothing, and leaves `out` empty.
- The byte counters see only the histogram and offset traffic of each
  pass, plus one final read of `8 * N` bytes. The keys do not cross
  between host and device during the passes, and the initial upload of
  the keys through `CL_MEM_COPY_HOST_PTR` at buffer creation is not
  counted.

## Model

| member | source | states |
|---|---|---|
| CountingPass.PassesCoverKey | radix_sort.cpp:11-13 | `BUCKETS` is 2^11 and `PASSES` is `(64 + 11 - 1) / 11` = 6. Six passes cover at least the 64 key bits, and five would not. |
| CountingPass.Digit | radix_sort.cpp:24 | The bucket `(x >> shift) & (BUCKETS - 1)` of a key is below 2048. |
| CountingPass.HistogramConservation | radix_sort.cpp:22-26 | The 2048 bucket counts of a pass sum to the number of keys, and the last bucket start is N. |
| CountingPass.BucketStartNext | radix_sort.cpp:27-30 | Bucket `b + 1` starts where bucket `b` starts plus the count of `b`. |
| CountingPass.GatherLength | radix_sort.cpp:27-34 | Buckets `0 .. k-1` of a pass together fill exactly up to where bucket `k` starts. |
| CountingPass.PassPermutation | radix_sort.cpp:31-34 | A pass is a permutation of its input: same length, same multiset. |
| CountingPass.PassStable | radix_sort.cpp:31-34 | Stability: the keys of each bucket appear in the output of a pass in the same order as in its input. |
| CountingPass.PassOrdered | radix_sort.cpp:31-34 | The output of a pass is ordered by the digit of the pass. If the input was ordered on the low `shift` bits, the output is ordered on the low `shift + 11` bits. |
| CountingPass.FilterConcat | radix_sort.cpp:31-34 | Selecting the keys of one bucket commutes with concatenation. |
| CountingPass.LayoutIsPass | radix_sort.cpp:31-34 | An output in which each bucket's keys occupy that bucket's region, in input order, is the pass. |
| LsdSort.LsdInvariant | radix_sort.cpp:20-36 | After `p` passes the keys are a permutation of the input, ordered on their low `11 * p` bits. |
| LsdSort.SortCorrect | radix_sort.cpp:20-39 | The result of the six passes is in ascending order, and is a permutation of the input. |
| LsdSort.SortedUnique | radix_sort.cpp:20-39 | Two ascending sequences with the same multiset are equal, so the result is the one ascending arrangement of the input. |
| LsdSort.SortIdempotent | radix_sort.cpp:20-39 | Keys already in ascending order, including keys that are all equal, come back unchanged. |
| LsdSort.SortSingleton | radix_sort.cpp:23-38 | With N = 1 the output is the single input key. |
| LsdSort.SortTwice | radix_sort.cpp:20-39 | Sorting the result again changes nothing. |
| RadixSort.CountDigits | radix_sort.cpp:22-26 | After the fill and the counting loop, `hist[b]` is the number of keys whose digit is `b`, for every bucket. |
| RadixSort.BucketOffsets | radix_sort.cpp:27-30 | After the prefix loop, `offsets[b]` is `hist[0] + ... + hist[b-1]`, for every `b` up to 2048. |
| RadixSort.BucketStartMonotone | radix_sort.cpp:27-30 | The bucket starts never decrease, and the last one is N. |
| RadixSort.PlaceKey | radix_sort.cpp:33 | `dst[offsets[bucket]++] = key` writes the key at the old offset and increments that offset only. |
| RadixSort.Scatter | radix_sort.cpp:31-34 | The scatter loop leaves `dst` equal to the stable pass of `src`, and leaves `offsets[b]` at the end of bucket `b`. |
| RadixSort.RunPass | radix_sort.cpp:21-34 | Counting, prefix sum and scatter together leave `dst` equal to the pass of `src` on the digit at `shift`. |
| RadixSort.SortPass | radix_sort.cpp:20-35 | Pass number `p` turns the keys after `p` passes into the keys after `p + 1` passes. |
| RadixSort.CopyKeys | radix_sort.cpp:37-39 | `std::copy` makes `out` equal to `src` and leaves `src` unchanged. |
| RadixSort.RadixSortSingleLsb | radix_sort.cpp:9-40 | `out` ends holding `Sort` of the original `in`. Because six passes is even, the last pass writes into `in`, which ends equal to `out`. |
| OpenClConfig.ConstantsAgree | opencl_sort.cpp:39-44 | `RADIX` is `1 << BITS` = 256, and `PASSES` is `(64 + BITS - 1) / BITS` = 8. The 8 passes of 8 bits cover the 64 key bits exactly. |
| OpenClConfig.GeometryCovers | opencl_sort.cpp:41-43 | `GLOBAL_SZ = NUM_GROUPS * 256` is at least N and less than N + 256; there are no groups exactly when N = 0; the last group starts below N. |
| OpenClConfig.GroupsBound | opencl_sort.cpp:42 | With N < 2^32 there are at most 2^24 groups. |
| OpenClOffsets.CellsDistinct | opencl_sort.cpp:128 | Distinct (group, digit) pairs use distinct cells `g * RADIX + d` of `gh` and `go`. |
| OpenClOffsets.BucketTotals | opencl_sort.cpp:125-130 | `bt[d]` is the sum over all groups of `gh[g * RADIX + d]`, modulo 2^32; `gh` is left unchanged. |
| OpenClOffsets.BucketPrefix | opencl_sort.cpp:131-132 | `pg[0] = 0` and `pg[d] = pg[d-1] + bt[d-1]`, so `pg[d]` is `bt[0] + ... + bt[d-1]` modulo 2^32. |
| OpenClOffsets.GroupOffsets | opencl_sort.cpp:135-141 | `go[g * RADIX + d]` is the sum of `gh[g' * RADIX + d]` over the groups `g' < g`, modulo 2^32. |
| OpenClOffsets.PrefixOfTotals | opencl_sort.cpp:125-132 | A prefix sum of the wrapped bucket totals is, modulo 2^32, the start of that bucket's region. |
| OpenClOffsets.OffsetStage | opencl_sort.cpp:125-141 | The whole host stage leaves `bt`, `pg` and `go` holding the bucket totals, bucket starts and group offsets of `gh`, modulo 2^32. |
| OpenClOffsets.WrappedOffsets | opencl_sort.cpp:125-141 | Even with wrap-around, `pg[0]` is 0, group 0's offsets are 0, and `pg[255] + bt[255]` is the histogram total modulo 2^32. |
| OpenClOffsets.ExactOffsets | opencl_sort.cpp:125-141 | When the histogram sums to less than 2^32, `bt`, `pg` and `go` hold the exact sums, and `pg[255] + bt[255]` is the total. |
| OpenClOffsets.ExactLayout | opencl_sort.cpp:125-141 | When nothing wraps, group `g`'s share of bucket `d` lies inside `[pg[d], pg[d] + bt[d])` and ends before the share of any later group begins. Consecutive bucket regions are adjacent, and every region ends within the total. |
| OpenClOffsets.GroupShareBounds | opencl_sort.cpp:135-141 | Group `g`'s share of a bucket ends no later than the start of any later group's share, and no later than the bucket total. |
| OpenClOffsets.SlotInRegion | opencl_sort.cpp:125-141 | The place given to the `i`-th key of digit `d` in group `g` lies in bucket `d`'s region and below the total. |
| OpenClOffsets.SlotsInjective | opencl_sort.cpp:125-141 | No two keys are given the same place. |
| OpenClOffsets.SlotsCover | opencl_sort.cpp:125-141 | Every place below the total is given to some key, so the shares tile `[0, total)`. |
| OpenClHost.InputAfterParity | opencl_sort.cpp:160 | After an even number of swaps `buf_in` names the buffer it named at first; after an odd number, the other buffer. |
| OpenClHost.Transfers.constructor | opencl_sort.cpp:11-12 | Both byte counters start at 0. |
| OpenClHost.Transfers.EnqueueWrite | opencl_sort.cpp:15-20 | `ENQUEUE_WRITE` adds the transfer size to `total_host_to_device`, wrapping modulo 2^64, and leaves the other counter unchanged. |
| OpenClHost.Transfers.EnqueueRead | opencl_sort.cpp:22-27 | `ENQUEUE_READ` adds the transfer size to `total_device_to_host`, wrapping modulo 2^64, and leaves the other counter unchanged. |
| OpenClHost.TransferBytesFit | opencl_sort.cpp:109-164 | With N < 2^32, each per-group transfer is at most 2^34 bytes. The totals are `8 * (2 * NUM_GROUPS * 1024 + 1024)` bytes to the device and `8 * NUM_GROUPS * 1024 + 8 * N` from it, and both fit in 64 bits. |
| OpenClHost.HostPass | opencl_sort.cpp:109-147 | One pass counts the zeroing of `buf_gh`, the upload of `pg` and the upload of `go` (2 * NUM_GROUPS * 1024 + 1024 bytes to the device), and the read-back of `gh` (NUM_GROUPS * 1024 bytes from it). It leaves the host arrays holding that pass's offsets. |
| OpenClHost.RunOpenClRadix | opencl_sort.cpp:105-165 | The first pass scatters from the input buffer, and each later pass from the buffer the previous pass wrote. The buffer read back at the end is the one the last pass wrote, which is the input buffer again. Under the corrected flags every scatter target is writable. The counters grow by the totals above, and the host arrays keep the offsets of the last pass. |
| CountingPass.Pass | radix_sort.cpp:20-34 | Definition of one pass: the keys of bucket 0, then bucket 1, and so on up to 2047, each bucket in input order. `RadixSort.Scatter` is proved equal to it, and its properties are stated by `PassPermutation`, `PassStable` and `PassOrdered`. |
| LsdSort.Sort | radix_sort.cpp:20-36 | Definition of the whole sort: six passes, pass `p` on the digit at bit `11 * p`. `RadixSort.RadixSortSingleLsb` is proved equal to it, and its properties are stated by `SortCorrect` and `SortedUnique`. |
| Arith.Add32 | opencl_sort.cpp:125-141 | `uint32_t` addition: the exact sum when it is below 2^32, and the sum minus 2^32 otherwise. |
| OpenClConfig.NumGroups | opencl_sort.cpp:42 | Definition of `NUM_GROUPS = (N + LOCAL_SZ - 1) / LOCAL_SZ`; that it is N / 256 rounded up is stated by `GeometryCovers`. |
| OpenClConfig.GlobalSize | opencl_sort.cpp:43 | Definition of `GLOBAL_SZ = NUM_GROUPS * LOCAL_SZ`; its bounds are stated by `GeometryCovers`. |
| OpenClOffsets.Cell | opencl_sort.cpp:128-139 | Definition of the index `g * RADIX + d` of group `g`'s entry for digit `d`; `CellInRange` and `CellsDistinct` state that it lies inside `gh` and `go` and is one-to-one. |
| OpenClOffsets.CellInRange | opencl_sort.cpp:128-139 | The index `g * RADIX + d` of a group below `NUM_GROUPS` and a digit below 256 lies inside `gh` and `go`. |
| OpenClHost.Other | opencl_sort.cpp:160 | `std::swap(buf_in, buf_out)` puts the other key buffer in place of each one; the result always differs from its argument. |
| OpenClHost.InputAfter | opencl_sort.cpp:105-160 | Definition of the buffer `buf_in` names after `k` swaps; `InputAfterParity` states its value. |
| OpenClHost.OddPassesWriteInput | opencl_sort.cpp:150-160 | Passes 1, 3, 5 and 7 scatter into the buffer created holding the input. |
| OpenClHost.PingPongNeedsBoth | opencl_sort.cpp:150-160 | Under any choice of buffer flags, every pass can write its scatter target exactly when both key buffers are writable. |
| OpenClHost.CreatedAccess | opencl_sort.cpp:82-87 | The buffer flags as written: the input buffer `CL_MEM_READ_ONLY`, the other `CL_MEM_READ_WRITE`. |
| OpenClHost.ReadOnlyScatterTarget | opencl_sort.cpp:82 | With the flags as written, pass 1 scatters into a read-only buffer, so not every pass can write its target. |
| OpenClHost.KeyAccess | opencl_sort.cpp:82-87 | The corrected flags: both key buffers `CL_MEM_READ_WRITE`. |
| OpenClHost.KeyAccessWritable | opencl_sort.cpp:82-87 | With the corrected flags every pass scatters into a writable buffer. |
| OpenClHost.GroupArrayBytes | opencl_sort.cpp:109-146 | Definition of the size of `zero`, `gh` and `go` in bytes, `NUM_GROUPS * RADIX * sizeof(uint32_t)`; bounded by `TransferBytesFit`. |
| OpenClHost.PassWriteBytes | opencl_sort.cpp:109-147 | Definition of the bytes one pass writes to the device: zeroing `buf_gh`, then `pg`, then `go`. |
| OpenClHost.PassReadBytes | opencl_sort.cpp:121 | Definition of the bytes one pass reads from the device: the histogram `gh`. |
| OpenClHost.HostToDeviceBytes | opencl_sort.cpp:105-147 | Definition of the total the sort adds to `total_host_to_device`, 8 times the per-pass writes; its closed form and 64-bit bound are stated by `TransferBytesFit`. |
| OpenClHost.DeviceToHostBytes | opencl_sort.cpp:105-165 | Definition of the total the sort adds to `total_device_to_host`, 8 times the per-pass read plus `8 * N`; its closed form and 64-bit bound are stated by `TransferBytesFit`. |

## Left out

- `external_sort_sim.cpp` is not part of this model. It is a cost
  simulator built on floating point and random sampling, and it sorts
  nothing.
- The OpenCL runtime is not modelled: platform, device, context, queue,
  program build, kernel arguments, kernel launches, `clFinish` and the
  `CL_SUCCESS` assertions. These are foreign calls.
- The device kernels `build_group_histogram` and `scatter_stable` are not
  part of this model, and the kernel source is not available. The
  histogram of each pass is an input to `RunOpenClRadix`. Nothing is
  claimed about the order of the keys the device produces. The lemmas on
  slots describe the places that the host offsets give to keys.
- The following are left out as I/O or a test harness: reading the kernel
  file, the reference `std::sort` with its comparison and `std::exit`, and
  the final report on standard output.
- `radix_sort_single_msb`, `radix_sort_single_inplace` and
  `radix_sort_multi_threaded` are left out. They are placeholders without
  sorting behaviour. `radix_sort.hpp` is not part of this model.
- RadixSort.RadixSortSingleLsb requires N < 2^32, because the counts in
  `hist` are `uint32_t`. The source does not check this, and a bucket
  holding 2^32 keys would wrap.
- RadixSort.RadixSortSingleLsb states sortedness and permutation through
  `LsdSort.Sort`. These are proved about `Sort` in `LsdSort.SortCorrect`
  rather than repeated in the method's contract.
- CountingPass.Digit models `(x >> shift) & (BUCKETS - 1)` arithmetically,
  as `(x / 2^shift) % 2048` on an unbounded key.
- OpenClHost.RunOpenClRadix requires N < 2^32, because the kernels receive
  N as a `uint32_t` argument. The `size_t` wrap of `N + LOCAL_SZ - 1` is
  therefore not modelled.
- OpenClHost.RunOpenClRadix does not model the contents of device buffers.
  The device copy of `gh` appears only through the histogram it yields, and
  the uploads of `pg` and `go` appear only through their byte counts.
- OpenClHost.RunOpenClRadix models N = 0 as if every OpenCL call
  succeeded: it counts eight passes of transfers, 8 * 1024 bytes to the
  device. In the source, creating the key buffers with size
  `N * sizeof(cl_ulong)` = 0 fails (`CL_INVALID_BUFFER_SIZE`), and the
  `CL_SUCCESS` assertion after it stops the program before any pass.
- OpenClHost.RunOpenClRadix uses the corrected buffer flags `KeyAccess`,
  not the flags as written (see Findings).

## Findings

| source | as written | input that shows it | evidently intended | confidence | as-written member | corrected member |
|---|---|---|---|---|---|---|
| opencl_sort.cpp:82 | `buf_in` is created `CL_MEM_READ_ONLY` together with `CL_MEM_COPY_HOST_PTR`. After the swap at line 160, passes 1, 3, 5 and 7 pass that buffer to `scatter_stable` as its output, and the OpenCL specification leaves a kernel's writes to a read-only buffer undefined. | Any N > 0: pass 1 scatters into the buffer created at line 82. | Create both key buffers `CL_MEM_READ_WRITE`, the input one with `CL_MEM_COPY_HOST_PTR` as well. | medium; not executed. Drivers that do not enforce the flag would still give the expected result. | OpenClHost.ReadOnlyScatterTarget | OpenClHost.KeyAccessWritable |
