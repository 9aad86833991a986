/** The pass schedule of `run_opencl_radix` on the host: the transfers each
    pass enqueues, the two byte counters the transfer wrappers keep, and the
    swap of the two key buffers that decides which one is read back. The
    device kernels are not part of this model: the per-group histogram that
    each pass reads back from the device is an input. */
module OpenClHost {
  import opened Arith
  import opened OpenClConfig
  import opened OpenClOffsets

  // ---------------------------------------------------------------------
  // The key buffers

  /** The two device buffers for keys: `KeysA` is created holding the input
      (`CL_MEM_READ_ONLY | CL_MEM_COPY_HOST_PTR`), `KeysB` is created empty
      (`CL_MEM_READ_WRITE`). `buf_in` names `KeysA` and `buf_out` names
      `KeysB` before the first pass. */
  datatype KeyBuffer = KeysA | KeysB

  /** The buffer a swap puts in place of `b`. */
  function Other(b: KeyBuffer): (c: KeyBuffer)
    ensures c != b
  {
    if b == KeysA then KeysB else KeysA
  }

  /** The buffer `buf_in` names after `k` swaps. */
  function InputAfter(k: nat): KeyBuffer
  {
    if k == 0 then KeysA else Other(InputAfter(k - 1))
  }

  /** An even number of swaps gives `buf_in` back its first buffer, an odd
      number gives it the other one. */
  lemma {:induction false} InputAfterParity(k: nat)
    ensures InputAfter(k) == (if k % 2 == 0 then KeysA else KeysB)
  {
    if k > 0 {
      InputAfterParity(k - 1);
    }
  }

  /** Passes 1, 3, 5 and 7 scatter into the buffer that held the input. */
  lemma OddPassesWriteInput()
    ensures forall p :: 0 <= p < CL_PASSES && p % 2 == 1 ==> Other(InputAfter(p)) == KeysA
  {
    forall p | 0 <= p < CL_PASSES && p % 2 == 1 ensures Other(InputAfter(p)) == KeysA {
      InputAfterParity(p);
    }
  }

  /** How kernels may use a buffer, as its `cl_mem_flags` say. */
  datatype Access = ReadOnly | ReadWrite

  /** Every pass scatters into a buffer that `access` lets kernels write. */
  ghost predicate TargetsWritable(access: KeyBuffer -> Access)
  {
    forall p :: 0 <= p < CL_PASSES ==> access(Other(InputAfter(p))) == ReadWrite
  }

  /** Since the scatter targets alternate, every pass can write its target
      exactly when both key buffers are writable. */
  lemma PingPongNeedsBoth(access: KeyBuffer -> Access)
    ensures TargetsWritable(access) <==> access(KeysA) == ReadWrite && access(KeysB) == ReadWrite
  {
    InputAfterParity(0);
    InputAfterParity(1);
    if access(KeysA) == ReadWrite && access(KeysB) == ReadWrite {
      forall p | 0 <= p < CL_PASSES ensures access(Other(InputAfter(p))) == ReadWrite {
        assert Other(InputAfter(p)) == KeysA || Other(InputAfter(p)) == KeysB;
      }
    }
  }

  /** The flags as lines 82 and 85 create the buffers: the input buffer is
      `CL_MEM_READ_ONLY`. */
  function CreatedAccess(b: KeyBuffer): Access
  {
    if b == KeysA then ReadOnly else ReadWrite
  }

  /** As created, pass 1 scatters into the read-only input buffer. */
  lemma ReadOnlyScatterTarget()
    ensures CreatedAccess(Other(InputAfter(1))) == ReadOnly
    ensures !TargetsWritable(CreatedAccess)
  {
    PingPongNeedsBoth(CreatedAccess);
  }

  /** The flags the ping-pong needs: both key buffers `CL_MEM_READ_WRITE`,
      the input one also `CL_MEM_COPY_HOST_PTR`. */
  function KeyAccess(b: KeyBuffer): Access
  {
    ReadWrite
  }

  /** With these flags every pass scatters into a writable buffer. */
  lemma KeyAccessWritable()
    ensures TargetsWritable(KeyAccess)
  {
    PingPongNeedsBoth(KeyAccess);
  }

  // ---------------------------------------------------------------------
  // The byte counters

  /** `total_host_to_device`, `total_device_to_host` and the `ENQUEUE_WRITE`
      and `ENQUEUE_READ` wrappers that add the size of each transfer to them.
      Both counters are `uint64_t` and wrap modulo 2^64; `sent` and
      `received` are the exact byte counts they stand for. */
  class Transfers {
    var hostToDevice: u64
    var deviceToHost: u64
    ghost var sent: nat
    ghost var received: nat

    /** Each counter is its exact count modulo 2^64. */
    ghost predicate Valid()
      reads this
    {
      hostToDevice == sent % U64_LIMIT && deviceToHost == received % U64_LIMIT
    }

    /** Both counters start at 0. */
    constructor ()
      ensures Valid() && sent == 0 && received == 0
    {
      hostToDevice, deviceToHost := 0, 0;
      sent, received := 0, 0;
    }

    /** `ENQUEUE_WRITE` of `sz` bytes. */
    method EnqueueWrite(sz: u64)
      requires Valid()
      modifies this
      ensures Valid()
      ensures hostToDevice == (old(hostToDevice) + sz) % U64_LIMIT
      ensures sent == old(sent) + sz
      ensures deviceToHost == old(deviceToHost) && received == old(received)
    {
      AddModLeft(sent, sz, U64_LIMIT);
      hostToDevice := (hostToDevice + sz) % U64_LIMIT;
      sent := sent + sz;
    }

    /** `ENQUEUE_READ` of `sz` bytes. */
    method EnqueueRead(sz: u64)
      requires Valid()
      modifies this
      ensures Valid()
      ensures deviceToHost == (old(deviceToHost) + sz) % U64_LIMIT
      ensures received == old(received) + sz
      ensures hostToDevice == old(hostToDevice) && sent == old(sent)
    {
      AddModLeft(received, sz, U64_LIMIT);
      deviceToHost := (deviceToHost + sz) % U64_LIMIT;
      received := received + sz;
    }
  }

  /** The size in bytes of a per-group array of `uint32_t` (`zero`, `gh`,
      `go`), `NUM_GROUPS * RADIX * 4`. */
  function GroupArrayBytes(n: nat): nat
  {
    NumGroups(n) * RADIX * 4
  }

  /** The size in bytes of `pg`, `RADIX * 4`. */
  const PG_BYTES: nat := 1024

  /** Bytes written per pass: zeroing `buf_gh`, uploading `pg` and `go`. */
  function PassWriteBytes(n: nat): nat
  {
    GroupArrayBytes(n) + PG_BYTES + GroupArrayBytes(n)
  }

  /** Bytes read per pass: reading back `gh`. */
  function PassReadBytes(n: nat): nat
  {
    GroupArrayBytes(n)
  }

  /** Bytes the whole sort adds to `total_host_to_device`. The upload of the
      input when `buf_in` is created does not go through `ENQUEUE_WRITE` and
      is not counted. */
  function HostToDeviceBytes(n: nat): nat
  {
    CL_PASSES * PassWriteBytes(n)
  }

  /** Bytes the whole sort adds to `total_device_to_host`: the per-pass
      reads and the final read of `n` 8-byte keys. */
  function DeviceToHostBytes(n: nat): nat
  {
    CL_PASSES * PassReadBytes(n) + n * 8
  }

  /** With fewer than 2^32 keys every transfer size and both totals fit in
      a `uint64_t`, and the totals are the closed forms
      `8 * (2 * NUM_GROUPS * 1024 + 1024)` and `8 * NUM_GROUPS * 1024 + 8 * n`. */
  lemma TransferBytesFit(n: nat)
    requires n < U32_LIMIT
    ensures GroupArrayBytes(n) <= 0x4_0000_0000
    ensures HostToDeviceBytes(n) == 8 * (2 * NumGroups(n) * 1024 + 1024) < U64_LIMIT
    ensures DeviceToHostBytes(n) == 8 * NumGroups(n) * 1024 + 8 * n < U64_LIMIT
  {
    GroupsBound(n);
    assert GroupArrayBytes(n) == NumGroups(n) * 1024;
    MulMonotone(NumGroups(n), 0x100_0000, 1024);
  }

  // ---------------------------------------------------------------------
  // The pass loop

  /** The host's part of one pass (lines 109-147): zero `buf_gh` on the
      device, read back the histogram `h` the device built, run the offset
      stage and upload `pg` and `go`. */
  method HostPass(n: nat, groups: nat, h: seq<u32>, t: Transfers,
                  gh: array<u32>, bt: array<u32>, pg: array<u32>, go: array<u32>)
    requires n < U32_LIMIT && groups == NumGroups(n) && t.Valid()
    requires |h| == groups * RADIX && gh.Length == groups * RADIX && go.Length == groups * RADIX
    requires bt.Length == RADIX && pg.Length == RADIX
    requires gh != bt && gh != pg && gh != go && bt != pg && bt != go && pg != go
    modifies t, gh, bt, pg, go
    ensures t.Valid()
    ensures t.sent == old(t.sent) + PassWriteBytes(n) && t.received == old(t.received) + PassReadBytes(n)
    ensures gh[..] == h && Offsets(h, groups, bt[..], pg[..], go[..])
  {
    TransferBytesFit(n);
    // zero the per-group histogram on the device
    t.EnqueueWrite(GroupArrayBytes(n));
    // the device builds the histogram; read it back
    t.EnqueueRead(GroupArrayBytes(n));
    forall i | 0 <= i < gh.Length {
      gh[i] := h[i];
    }
    assert gh[..] == h;
    OffsetStage(gh, groups, bt, pg, go);
    t.EnqueueWrite(PG_BYTES);
    t.EnqueueWrite(GroupArrayBytes(n));
  }

  /** Lines 105-165 of `run_opencl_radix` as seen from the host. Pass `p`
      writes zeros over `buf_gh`, reads back the histogram the device built
      (`ghs[p]`), runs the offset stage, uploads `pg` and `go`, lets the
      device scatter from `buf_in` into `buf_out` and swaps the two handles.
      Afterwards `n` keys are read back from `buf_in`.

      `sources[p]` is the buffer pass `p` scatters from: the first pass
      reads the input, each later pass reads what the one before it wrote,
      and after the eight passes the buffer read back is the one the last
      pass wrote, which is again `KeysA`. The counters grow by the totals
      above, modulo 2^64, and the host arrays hold the last pass's
      offsets. */
  method RunOpenClRadix(n: nat, ghs: seq<seq<u32>>, t: Transfers)
      returns (sources: seq<KeyBuffer>, readBack: KeyBuffer, bt: seq<u32>, pg: seq<u32>, go: seq<u32>)
    requires n < U32_LIMIT && t.Valid()
    requires |ghs| == CL_PASSES
    requires forall p :: 0 <= p < CL_PASSES ==> |ghs[p]| == NumGroups(n) * RADIX
    modifies t
    ensures |sources| == CL_PASSES && sources[0] == KeysA
    ensures forall p :: 0 < p < CL_PASSES ==> sources[p] == Other(sources[p - 1])
    ensures readBack == Other(sources[CL_PASSES - 1]) && readBack == KeysA
    ensures forall p :: 0 <= p < CL_PASSES ==> KeyAccess(Other(sources[p])) == ReadWrite
    ensures t.Valid()
    ensures t.sent == old(t.sent) + HostToDeviceBytes(n) && t.received == old(t.received) + DeviceToHostBytes(n)
    ensures Offsets(ghs[CL_PASSES - 1], NumGroups(n), bt, pg, go)
  {
    var groups := NumGroups(n);
    TransferBytesFit(n);
    var gh := new u32[groups * RADIX];
    var btA := new u32[RADIX];
    var pgA := new u32[RADIX];
    var goA := new u32[groups * RADIX];
    var bufIn, bufOut := KeysA, KeysB;
    ghost var h0, d0 := t.sent, t.received;
    sources := [];
    for pass := 0 to CL_PASSES
      invariant |sources| == pass && bufIn == InputAfter(pass) && bufOut == Other(bufIn)
      invariant forall p :: 0 <= p < pass ==> sources[p] == InputAfter(p)
      invariant t.Valid()
      invariant t.sent == h0 + pass * PassWriteBytes(n) && t.received == d0 + pass * PassReadBytes(n)
      invariant pass > 0 ==> Offsets(ghs[pass - 1], groups, btA[..], pgA[..], goA[..])
    {
      HostPass(n, groups, ghs[pass], t, gh, btA, pgA, goA);
      // the device scatters from bufIn into bufOut
      sources := sources + [bufIn];
      bufIn, bufOut := bufOut, bufIn;
      MulSucc(pass, PassWriteBytes(n));
      MulSucc(pass, PassReadBytes(n));
    }
    t.EnqueueRead(n * 8);
    readBack := bufIn;
    InputAfterParity(CL_PASSES);
    KeyAccessWritable();
    bt, pg, go := btA[..], pgA[..], goA[..];
  }
}
