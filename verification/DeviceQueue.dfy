/** The device side of the streaming pipeline, one micro-operation at a time.

    A context owns one stream. Whatever the host queues on it, the device runs
    in order: an asynchronous copy moves one element per step, a launch decodes
    one chunk per step. The host goes on running meanwhile and shares the pinned
    buffers with the copies, so what a queued operation will do depends on what
    the pinned memory holds when the device gets to it. */
module DeviceQueue {
  import opened Bits
  import opened Cudec

  datatype Record = Record(status: Status, written: nat)

  /** The record of a chunk the device has reported nothing about. */
  const Stamp := Record(DeviceError, 0)

  /** What decoding one chunk does: the status and length it reports, and the
      bytes it leaves at the front of its destination. */
  datatype Outcome = Outcome(status: Status, claim: nat, bytes: seq<byte>)

  /** One call: the compressed chunks, the capacities, the caller's buffers and
      which side they are on, and the decoder as a function of one chunk. */
  datatype Job = Job(srcs: seq<seq<byte>>, caps: seq<nat>, dsts: seq<seq<byte>>, hostOut: bool,
                     decode: (seq<byte>, nat) -> Outcome)

  /** A decoder stays inside its capacity and has written what it claims, unless
      it claims more than the capacity: that the host must survive. */
  ghost predicate DecoderInBounds(decode: (seq<byte>, nat) -> Outcome) {
    forall s, c :: |decode(s, c).bytes| <= c && (decode(s, c).claim <= c ==> decode(s, c).claim <= |decode(s, c).bytes|)
  }

  ghost predicate JobOk(job: Job) {
    && |job.srcs| == |job.caps| == |job.dsts|
    && (forall k :: 0 <= k < |job.srcs| ==> |job.dsts[k]| == job.caps[k])
    && DecoderInBounds(job.decode)
  }

  /** Where a launch puts a chunk's output: a slot of the destination staging,
      or the caller's own buffer. */
  datatype Target = Slot(off: nat) | Buffer(k: nat)

  datatype Meta = Meta(src: nat, size: nat, dst: Target, cap: nat)

  datatype Memory = Memory(
    pSrc: seq<byte>, pMeta: seq<Meta>,
    dSrc: seq<byte>, dMeta: seq<Meta>, dDst: seq<byte>,
    dsts: seq<seq<byte>>,
    dRes: seq<Record>, pRes: seq<Record>)

  /** One step of a queued operation. `Reused` is the reuse event completing. */
  datatype Op =
    | SrcByte(i: nat)
    | MetaEntry(i: nat)
    | Reused
    | Chunk(j: nat, k: nat)
    | ReadBack(k: nat)

  function Slice(s: seq<byte>, off: nat, n: nat): seq<byte> {
    if off + n <= |s| then s[off..off + n] else []
  }

  function Overlay(s: seq<byte>, off: nat, b: seq<byte>): (r: seq<byte>)
    ensures |r| == |s|
  {
    if off + |b| <= |s| then s[..off] + b + s[off + |b|..] else s
  }

  function Exec(job: Job, m: Memory, op: Op): Memory {
    match op
    case SrcByte(i) => if i < |m.pSrc| && i < |m.dSrc| then m.(dSrc := m.dSrc[i := m.pSrc[i]]) else m
    case MetaEntry(i) => if i < |m.pMeta| && i < |m.dMeta| then m.(dMeta := m.dMeta[i := m.pMeta[i]]) else m
    case Reused => m
    case Chunk(j, k) => if j < |m.dMeta| && k < |m.dRes| then Launch(job, m, m.dMeta[j], k) else m
    case ReadBack(k) => if k < |m.dRes| && k < |m.pRes| then m.(pRes := m.pRes[k := m.dRes[k]]) else m
  }

  /** The kernel on one chunk, from what the device memory says the chunk is. */
  function Launch(job: Job, m: Memory, me: Meta, k: nat): Memory
    requires k < |m.dRes|
  {
    var o := job.decode(Slice(m.dSrc, me.src, me.size), me.cap);
    var reported := m.(dRes := m.dRes[k := Record(o.status, o.claim)]);
    match me.dst
    case Slot(off) => reported.(dDst := Overlay(m.dDst, off, o.bytes))
    case Buffer(i) => if i < |m.dsts| then reported.(dsts := m.dsts[i := Overlay(m.dsts[i], 0, o.bytes)]) else reported
  }

  function Run(job: Job, m: Memory, ops: seq<Op>): Memory
    decreases |ops|
  {
    if ops == [] then m else Run(job, Exec(job, m, ops[0]), ops[1..])
  }

  lemma {:induction false} RunAppend(job: Job, m: Memory, a: seq<Op>, b: seq<Op>)
    ensures Run(job, m, a + b) == Run(job, Run(job, m, a), b)
    decreases |a|
  {
    if a == [] {
      assert a + b == b;
    } else {
      assert (a + b)[1..] == a[1..] + b;
      RunAppend(job, Exec(job, m, a[0]), a[1..], b);
    }
  }

  // ----- what each chunk should come to, decoded by itself -----

  function Said(job: Job, k: nat): Outcome
    requires k < |job.srcs| && k < |job.caps|
  {
    job.decode(job.srcs[k], job.caps[k])
  }

  function Reported(job: Job, k: nat): Record
    requires k < |job.srcs| && k < |job.caps|
  {
    Record(Said(job, k).status, Said(job, k).claim)
  }

  /** What reaches the caller's buffer: whatever the decoder wrote when it
      decodes straight into it, exactly the claimed bytes otherwise. */
  function Delivered(job: Job, k: nat): seq<byte>
    requires k < |job.srcs| && k < |job.caps|
  {
    var o := Said(job, k);
    if !job.hostOut then o.bytes else if o.claim <= |o.bytes| then o.bytes[..o.claim] else []
  }

  function Expected(job: Job, k: nat): seq<byte>
    requires k < |job.srcs| && k < |job.caps| && k < |job.dsts|
  {
    Overlay(job.dsts[k], 0, Delivered(job, k))
  }

  // ----- the layout of a wave -----

  function SrcSum(job: Job, a: nat, b: nat): nat
    requires a <= b <= |job.srcs|
  {
    if a == b then 0 else SrcSum(job, a, b - 1) + |job.srcs[b - 1]|
  }

  function CapSum(job: Job, a: nat, b: nat): nat
    requires a <= b <= |job.caps|
  {
    if a == b then 0 else CapSum(job, a, b - 1) + job.caps[b - 1]
  }

  lemma {:induction false} SumsGrow(job: Job, a: nat, b: nat, c: nat)
    requires JobOk(job) && a <= b <= c <= |job.srcs|
    ensures SrcSum(job, a, b) <= SrcSum(job, a, c) && CapSum(job, a, b) <= CapSum(job, a, c)
  {
    if b < c { SumsGrow(job, a, b, c - 1); }
  }

  /** A chunk's slot ends before the next one's begins. */
  lemma SlotEnds(job: Job, begin: nat, k: nat, end: nat)
    requires JobOk(job) && begin <= k < end <= |job.srcs|
    ensures SrcSum(job, begin, k) + |job.srcs[k]| <= SrcSum(job, begin, end)
    ensures CapSum(job, begin, k) + job.caps[k] <= CapSum(job, begin, end)
  {
    SumsGrow(job, begin, k + 1, end);
  }

  lemma OverlayKeeps(s: seq<byte>, off: nat, b: seq<byte>, a: nat, n: nat)
    requires a + n <= off || off + |b| <= a
    ensures Slice(Overlay(s, off, b), a, n) == Slice(s, a, n)
  {
  }

  lemma OverlayHolds(s: seq<byte>, off: nat, b: seq<byte>)
    requires off + |b| <= |s|
    ensures Slice(Overlay(s, off, b), off, |b|) == b
  {
  }

  function MetaOf(job: Job, begin: nat, k: nat): Meta
    requires JobOk(job) && begin <= k < |job.srcs|
  {
    Meta(SrcSum(job, begin, k), |job.srcs[k]|, if job.hostOut then Slot(CapSum(job, begin, k)) else Buffer(k), job.caps[k])
  }

  ghost predicate HoldsChunk(job: Job, begin: nat, k: nat, src: seq<byte>, meta: seq<Meta>)
    requires JobOk(job) && begin <= k < |job.srcs|
  {
    && k - begin < |meta| && meta[k - begin] == MetaOf(job, begin, k)
    && Slice(src, SrcSum(job, begin, k), |job.srcs[k]|) == job.srcs[k]
  }

  /** Source staging and metadata hold chunks `begin` to `end`, packed. */
  ghost predicate Holds(job: Job, begin: nat, end: nat, src: seq<byte>, meta: seq<Meta>)
    requires JobOk(job) && begin <= end <= |job.srcs|
  {
    && end - begin <= |meta| && SrcSum(job, begin, end) <= |src|
    && forall k :: begin <= k < end ==> HoldsChunk(job, begin, k, src, meta)
  }

  /** Staging one more chunk leaves the earlier ones where they were. */
  lemma HoldsOneMore(job: Job, begin: nat, k: nat, src: seq<byte>, meta: seq<Meta>)
    requires JobOk(job) && begin <= k < |job.srcs| && Holds(job, begin, k, src, meta)
    requires k - begin < |meta| && SrcSum(job, begin, k + 1) <= |src|
    ensures Holds(job, begin, k + 1, Overlay(src, SrcSum(job, begin, k), job.srcs[k]), meta[k - begin := MetaOf(job, begin, k)])
  {
    var off, b := SrcSum(job, begin, k), job.srcs[k];
    var src', meta' := Overlay(src, off, b), meta[k - begin := MetaOf(job, begin, k)];
    forall i | begin <= i < k ensures HoldsChunk(job, begin, i, src', meta') {
      assert HoldsChunk(job, begin, i, src, meta);
      SlotEnds(job, begin, i, k);
      OverlayKeeps(src, off, b, SrcSum(job, begin, i), |job.srcs[i]|);
    }
    OverlayHolds(src, off, b);
    assert HoldsChunk(job, begin, k, src', meta');
  }

  /** What a wave holds depends on no byte past its own. */
  lemma HoldsIsLocal(job: Job, begin: nat, end: nat, src: seq<byte>, meta: seq<Meta>, src': seq<byte>, meta': seq<Meta>)
    requires JobOk(job) && begin <= end <= |job.srcs| && Holds(job, begin, end, src, meta)
    requires end - begin <= |meta'| && SrcSum(job, begin, end) <= |src'|
    requires src'[..SrcSum(job, begin, end)] == src[..SrcSum(job, begin, end)] && meta'[..end - begin] == meta[..end - begin]
    ensures Holds(job, begin, end, src', meta')
  {
    var total := SrcSum(job, begin, end);
    forall k | begin <= k < end ensures HoldsChunk(job, begin, k, src', meta') {
      assert HoldsChunk(job, begin, k, src, meta);
      SlotEnds(job, begin, k, end);
      var off, len := SrcSum(job, begin, k), |job.srcs[k]|;
      assert meta'[k - begin] == meta'[..end - begin][k - begin] == meta[..end - begin][k - begin];
      assert src'[off..off + len] == src'[..total][off..off + len] == src[..total][off..off + len];
    }
  }

  // ----- operations that are ready to run -----

  /** There is a result slot and a buffer for every chunk of the call. */
  ghost predicate Sized(job: Job, m: Memory)
    requires JobOk(job)
  {
    && |m.dsts| == |job.srcs| <= |m.dRes| && |job.srcs| <= |m.pRes|
    && (forall k :: 0 <= k < |job.srcs| ==> |m.dsts[k]| == job.caps[k])
  }

  /** What must hold of the memory at the moment `op` runs: it stays in bounds, a
      launch sees its own chunk and no other wave's bytes, and a result is read
      back only once its chunk has reported. */
  ghost predicate Ready(job: Job, m: Memory, op: Op)
    requires JobOk(job)
  {
    match op
    case SrcByte(i) => i < |m.pSrc| && i < |m.dSrc|
    case MetaEntry(i) => i < |m.pMeta| && i < |m.dMeta|
    case Reused => true
    case Chunk(j, k) =>
      && j <= k < |job.srcs| && j < |m.dMeta| && m.dMeta[j] == MetaOf(job, k - j, k)
      && Slice(m.dSrc, m.dMeta[j].src, m.dMeta[j].size) == job.srcs[k]
      && k < |m.dRes|
      && (if job.hostOut then CapSum(job, k - j, k + 1) <= |m.dDst| else k < |m.dsts| && m.dsts[k] == job.dsts[k])
    case ReadBack(k) => k < |job.srcs| && k < |m.dRes| && k < |m.pRes| && m.dRes[k] == Reported(job, k)
  }

  /** Every operation of `ops`, run from `m` in order, is ready when its turn comes. */
  ghost predicate Sound(job: Job, m: Memory, ops: seq<Op>)
    requires JobOk(job)
    decreases |ops|
  {
    ops == [] || (Ready(job, m, ops[0]) && Sound(job, Exec(job, m, ops[0]), ops[1..]))
  }

  lemma {:induction false} SoundAppend(job: Job, m: Memory, a: seq<Op>, b: seq<Op>)
    requires JobOk(job)
    ensures Sound(job, m, a + b) <==> Sound(job, m, a) && Sound(job, Run(job, m, a), b)
    decreases |a|
  {
    if a == [] {
      assert a + b == b;
    } else {
      assert (a + b)[1..] == a[1..] + b && (a + b)[0] == a[0];
      SoundAppend(job, Exec(job, m, a[0]), a[1..], b);
    }
  }

  // ----- sharing the pinned buffers -----

  predicate ReadsPinned(op: Op) { op.SrcByte? || op.MetaEntry? }

  ghost predicate Quiet(ops: seq<Op>) {
    forall i :: 0 <= i < |ops| ==> !ReadsPinned(ops[i])
  }

  /** Every queued copy out of pinned memory has the reuse event behind it. */
  ghost predicate Gated(ops: seq<Op>) {
    forall i :: 0 <= i < |ops| && ReadsPinned(ops[i]) ==> exists e :: i < e < |ops| && ops[e] == Reused
  }

  lemma GatedSuffix(ops: seq<Op>, n: nat)
    requires n <= |ops|
    ensures Gated(ops) ==> Gated(ops[n..])
    ensures Quiet(ops) ==> Quiet(ops[n..])
  {
    if Gated(ops) {
      var rest := ops[n..];
      forall i | 0 <= i < |rest| && ReadsPinned(rest[i]) ensures exists e :: i < e < |rest| && rest[e] == Reused {
        assert ops[i + n] == rest[i];
        var e :| i + n < e < |ops| && ops[e] == Reused;
        assert rest[e - n] == Reused;
      }
    }
  }

  lemma GatedAppend(a: seq<Op>, b: seq<Op>)
    ensures Gated(a) && Quiet(b) ==> Gated(a + b)
    ensures Gated(a + [Reused])
  {
    if Gated(a) && Quiet(b) {
      var c := a + b;
      forall i | 0 <= i < |c| && ReadsPinned(c[i]) ensures exists e :: i < e < |c| && c[e] == Reused {
        assert i < |a|;
        var e :| i < e < |a| && a[e] == Reused;
        assert c[e] == Reused;
      }
    }
    var d := a + [Reused];
    assert d[|a|] == Reused;
  }

  /** Once the event has completed, no queued copy still reads pinned memory. */
  lemma ReuseIsSafe(ops: seq<Op>)
    requires Gated(ops) && Reused !in ops
    ensures Quiet(ops)
  {
  }

  /** With no copy out of pinned memory queued, overwriting it changes nothing
      the queue will do. */
  lemma {:induction false} StagingCommutes(job: Job, m: Memory, ops: seq<Op>, src: seq<byte>, meta: seq<Meta>)
    requires JobOk(job) && Quiet(ops)
    ensures Run(job, m.(pSrc := src, pMeta := meta), ops) == Run(job, m, ops).(pSrc := src, pMeta := meta)
    ensures Sound(job, m, ops) && |src| == |m.pSrc| && |meta| == |m.pMeta| ==> Sound(job, m.(pSrc := src, pMeta := meta), ops)
    decreases |ops|
  {
    if ops != [] {
      assert ops[0] in ops;
      var m' := m.(pSrc := src, pMeta := meta);
      assert Exec(job, m', ops[0]) == Exec(job, m, ops[0]).(pSrc := src, pMeta := meta);
      StagingCommutes(job, Exec(job, m, ops[0]), ops[1..], src, meta);
      assert Ready(job, m, ops[0]) ==> Ready(job, m', ops[0]);
    }
  }

  // ----- the operations of one wave, run in order -----

  function SrcCopy(n: nat): (ops: seq<Op>)
    ensures |ops| == n && forall i :: 0 <= i < n ==> ops[i] == SrcByte(i)
  {
    seq(n, i requires 0 <= i => SrcByte(i))
  }

  function MetaCopy(n: nat): (ops: seq<Op>)
    ensures |ops| == n && forall i :: 0 <= i < n ==> ops[i] == MetaEntry(i)
  {
    seq(n, i requires 0 <= i => MetaEntry(i))
  }

  /** An order in which a launch's chunks may run: any order. */
  predicate Order(order: seq<nat>, begin: nat, end: nat) {
    Distinct(order, begin, end) && forall k :: begin <= k < end ==> k in order
  }

  function Kernel(begin: nat, order: seq<nat>): (ops: seq<Op>)
    requires forall i :: 0 <= i < |order| ==> begin <= order[i]
    ensures |ops| == |order| && forall i :: 0 <= i < |ops| ==> ops[i] == Chunk(order[i] - begin, order[i])
  {
    if order == [] then []
    else
      var n := |order| - 1;
      Kernel(begin, order[..n]) + [Chunk(order[n] - begin, order[n])]
  }

  function Results(begin: nat, n: nat): (ops: seq<Op>)
    ensures |ops| == n && forall j :: 0 <= j < n ==> ops[j] == ReadBack(begin + j)
  {
    seq(n, j requires 0 <= j => ReadBack(begin + j))
  }

  lemma RunOneMore(job: Job, m: Memory, a: seq<Op>, op: Op)
    requires JobOk(job)
    ensures Run(job, m, a + [op]) == Exec(job, Run(job, m, a), op)
    ensures Sound(job, m, a + [op]) <==> Sound(job, m, a) && Ready(job, Run(job, m, a), op)
  {
    RunAppend(job, m, a, [op]);
    SoundAppend(job, m, a, [op]);
    var m' := Run(job, m, a);
    assert Run(job, m', [op]) == Run(job, Exec(job, m', op), []);
    assert [op][1..] == [];
    assert Sound(job, m', [op]) <==> Ready(job, m', op) && Sound(job, Exec(job, m', op), []);
  }

  lemma {:induction false} RunSrcCopy(job: Job, m: Memory, n: nat)
    requires JobOk(job) && n <= |m.pSrc| && n <= |m.dSrc|
    ensures Run(job, m, SrcCopy(n)) == m.(dSrc := m.pSrc[..n] + m.dSrc[n..])
    ensures Sound(job, m, SrcCopy(n))
  {
    if n == 0 {
      assert m.pSrc[..0] + m.dSrc[0..] == m.dSrc;
    } else {
      RunSrcCopy(job, m, n - 1);
      assert SrcCopy(n) == SrcCopy(n - 1) + [SrcByte(n - 1)];
      RunOneMore(job, m, SrcCopy(n - 1), SrcByte(n - 1));
      assert (m.pSrc[..n - 1] + m.dSrc[n - 1..])[n - 1 := m.pSrc[n - 1]] == m.pSrc[..n] + m.dSrc[n..];
    }
  }

  lemma {:induction false} RunMetaCopy(job: Job, m: Memory, n: nat)
    requires JobOk(job) && n <= |m.pMeta| && n <= |m.dMeta|
    ensures Run(job, m, MetaCopy(n)) == m.(dMeta := m.pMeta[..n] + m.dMeta[n..])
    ensures Sound(job, m, MetaCopy(n))
  {
    if n == 0 {
      assert m.pMeta[..0] + m.dMeta[0..] == m.dMeta;
    } else {
      RunMetaCopy(job, m, n - 1);
      assert MetaCopy(n) == MetaCopy(n - 1) + [MetaEntry(n - 1)];
      RunOneMore(job, m, MetaCopy(n - 1), MetaEntry(n - 1));
      assert (m.pMeta[..n - 1] + m.dMeta[n - 1..])[n - 1 := m.pMeta[n - 1]] == m.pMeta[..n] + m.dMeta[n..];
    }
  }

  ghost predicate InSlot(job: Job, begin: nat, k: nat, staging: seq<byte>)
    requires JobOk(job) && begin <= k < |job.srcs|
  {
    Slice(staging, CapSum(job, begin, k), |Said(job, k).bytes|) == Said(job, k).bytes
  }

  /** `m` is `m0` after the chunks in `done` have been decoded. */
  ghost predicate Decoded(job: Job, begin: nat, end: nat, done: seq<nat>, m0: Memory, m: Memory)
    requires JobOk(job) && begin <= end <= |job.srcs|
  {
    && m == m0.(dRes := m.dRes, dDst := m.dDst, dsts := m.dsts)
    && |m.dRes| == |m0.dRes| && |m.dDst| == |m0.dDst| && |m.dsts| == |m0.dsts|
    && (forall k :: begin <= k < end && k in done && k < |m.dRes| ==> m.dRes[k] == Reported(job, k))
    && (if job.hostOut then m.dsts == m0.dsts && forall k :: begin <= k < end && k in done ==> InSlot(job, begin, k, m.dDst)
        else forall k :: 0 <= k < |m.dsts| && k < |m0.dsts| && k < |job.dsts| ==>
                           m.dsts[k] == if begin <= k < end && k in done then Expected(job, k) else m0.dsts[k])
  }

  ghost predicate Loaded(job: Job, begin: nat, end: nat, m: Memory)
    requires JobOk(job) && begin <= end <= |job.srcs|
  {
    && Sized(job, m) && Holds(job, begin, end, m.dSrc, m.dMeta)
    && (if job.hostOut then CapSum(job, begin, end) <= |m.dDst|
        else forall k :: begin <= k < end ==> m.dsts[k] == job.dsts[k])
  }

  predicate Distinct(order: seq<nat>, begin: nat, end: nat) {
    && (forall i :: 0 <= i < |order| ==> begin <= order[i] < end)
    && (forall i, j :: 0 <= i < j < |order| ==> order[i] != order[j])
  }

  /** Whatever order a launch's chunks run in, each sees its own wave's bytes and
      leaves its record and its output in its own place. */
  lemma {:induction false} RunKernel(job: Job, begin: nat, end: nat, order: seq<nat>, m: Memory)
    requires JobOk(job) && begin <= end <= |job.srcs| && Loaded(job, begin, end, m) && Distinct(order, begin, end)
    ensures Sound(job, m, Kernel(begin, order)) && Decoded(job, begin, end, order, m, Run(job, m, Kernel(begin, order)))
    decreases |order|
  {
    hide Holds, Sound, Ready, Decoded, Loaded, Exec, Run, JobOk;
    if order != [] {
      var n := |order| - 1;
      var k, less := order[n], order[..n];
      LastIsNew(order, begin, end);
      RunKernel(job, begin, end, less, m);
      RunOneMore(job, m, Kernel(begin, less), Chunk(k - begin, k));
      ChunkRuns(job, begin, k, end, less, m, Run(job, m, Kernel(begin, less)));
      assert order == less + [k];
    } else {
      NothingDecoded(job, begin, end, m);
    }
  }

  lemma LastIsNew(order: seq<nat>, begin: nat, end: nat)
    requires order != [] && Distinct(order, begin, end)
    ensures var n := |order| - 1;
            Distinct(order[..n], begin, end) && order[n] !in order[..n] && begin <= order[n] < end
  {
  }

  lemma NothingDecoded(job: Job, begin: nat, end: nat, m: Memory)
    requires JobOk(job) && begin <= end <= |job.srcs|
    ensures Sound(job, m, Kernel(begin, [])) && Decoded(job, begin, end, [], m, Run(job, m, Kernel(begin, [])))
  {
  }

  /** Filling a chunk's slot leaves the slots before and behind it alone. */
  lemma SlotsKept(job: Job, begin: nat, k: nat, end: nat, done: seq<nat>, staging: seq<byte>)
    requires JobOk(job) && begin <= k < end <= |job.srcs| && k !in done && CapSum(job, begin, end) <= |staging|
    requires forall i :: begin <= i < end && i in done ==> InSlot(job, begin, i, staging)
    ensures forall i :: begin <= i < end && i in done + [k] ==>
                          InSlot(job, begin, i, Overlay(staging, CapSum(job, begin, k), Said(job, k).bytes))
  {
    var off, b := CapSum(job, begin, k), Said(job, k).bytes;
    SlotEnds(job, begin, k, end);
    forall i | begin <= i < end && i in done ensures InSlot(job, begin, i, Overlay(staging, off, b)) {
      assert InSlot(job, begin, i, staging);
      if i < k { SlotEnds(job, begin, i, k); } else { SlotEnds(job, begin, k, i); }
      OverlayKeeps(staging, off, b, CapSum(job, begin, i), |Said(job, i).bytes|);
    }
    OverlayHolds(staging, off, b);
  }

  lemma LoadedChunk(job: Job, begin: nat, k: nat, end: nat, m0: Memory)
    requires JobOk(job) && begin <= k < end <= |job.srcs| && Loaded(job, begin, end, m0)
    ensures k - begin < |m0.dMeta| && m0.dMeta[k - begin] == MetaOf(job, begin, k)
    ensures Slice(m0.dSrc, SrcSum(job, begin, k), |job.srcs[k]|) == job.srcs[k]
    ensures job.hostOut ==> CapSum(job, begin, k + 1) <= CapSum(job, begin, end) <= |m0.dDst|
    ensures !job.hostOut ==> m0.dsts[k] == job.dsts[k]
  {
    assert HoldsChunk(job, begin, k, m0.dSrc, m0.dMeta);
    SumsGrow(job, begin, k + 1, end);
  }

  /** One chunk of a launch, behind the chunks that ran before it. */
  lemma ChunkRuns(job: Job, begin: nat, k: nat, end: nat, done: seq<nat>, m0: Memory, m: Memory)
    requires JobOk(job) && begin <= k < end <= |job.srcs| && Loaded(job, begin, end, m0)
    requires Decoded(job, begin, end, done, m0, m) && k !in done
    ensures Ready(job, m, Chunk(k - begin, k))
    ensures Decoded(job, begin, end, done + [k], m0, Exec(job, m, Chunk(k - begin, k)))
  {
    hide Holds, HoldsChunk, Slice, Overlay, InSlot, CapSum, SrcSum;
    LoadedChunk(job, begin, k, end, m0);
    if job.hostOut {
      SlotsKept(job, begin, k, end, done, m.dDst);
      var m' := Exec(job, m, Chunk(k - begin, k));
      assert m'.dDst == Overlay(m.dDst, CapSum(job, begin, k), Said(job, k).bytes);
      assert m'.dsts == m.dsts;
      assert forall i :: begin <= i < end && i in done + [k] && i < |m'.dRes| ==> m'.dRes[i] == Reported(job, i);
      assert forall i :: begin <= i < end && i in done + [k] ==> InSlot(job, begin, i, m'.dDst);
    } else {
      assert Expected(job, k) == Overlay(job.dsts[k], 0, Said(job, k).bytes);
    }
  }

  lemma {:induction false} RunResults(job: Job, begin: nat, n: nat, wn: nat, m: Memory)
    requires JobOk(job) && n <= wn && begin + wn <= |job.srcs| && Sized(job, m)
    requires forall k :: begin <= k < begin + wn ==> m.dRes[k] == Reported(job, k)
    ensures Sound(job, m, Results(begin, n))
    ensures var m' := Run(job, m, Results(begin, n));
            && m' == m.(pRes := m'.pRes) && |m'.pRes| == |m.pRes|
            && forall k :: 0 <= k < |m.pRes| ==> m'.pRes[k] == if begin <= k < begin + n then m.dRes[k] else m.pRes[k]
  {
    if n > 0 {
      RunResults(job, begin, n - 1, wn, m);
      assert Results(begin, n) == Results(begin, n - 1) + [ReadBack(begin + n - 1)];
      RunOneMore(job, m, Results(begin, n - 1), ReadBack(begin + n - 1));
    }
  }

  /** Nothing the device does writes pinned staging. */
  lemma {:induction false} RunKeepsPinned(job: Job, m: Memory, ops: seq<Op>)
    ensures Run(job, m, ops).pSrc == m.pSrc && Run(job, m, ops).pMeta == m.pMeta
    decreases |ops|
  {
    if ops != [] { RunKeepsPinned(job, Exec(job, m, ops[0]), ops[1..]); }
  }

  // ----- what holds at every moment, faults included -----

  /** No record is anything but the stamp or its own chunk's report, and no byte
      of a caller's buffer past what its chunk delivers has changed. */
  ghost predicate Safe(job: Job, m: Memory)
    requires JobOk(job)
  {
    && Sized(job, m)
    && (forall k :: 0 <= k < |job.srcs| ==> m.pRes[k] == Stamp || m.pRes[k] == Reported(job, k))
    && (forall k :: 0 <= k < |job.srcs| ==> TailKept(job, k, m.dsts[k]))
  }

  ghost predicate TailKept(job: Job, k: nat, b: seq<byte>)
    requires JobOk(job) && k < |job.srcs|
  {
    |b| == |job.dsts[k]| && |Delivered(job, k)| <= |b| && b[|Delivered(job, k)|..] == job.dsts[k][|Delivered(job, k)|..]
  }

  lemma ExecIsSafe(job: Job, m: Memory, op: Op)
    requires JobOk(job) && Safe(job, m) && Ready(job, m, op)
    ensures Safe(job, Exec(job, m, op))
    ensures var m' := Exec(job, m, op); m'.pSrc == m.pSrc && m'.pMeta == m.pMeta && |m'.dDst| == |m.dDst| && |m'.dSrc| == |m.dSrc|
  {
    if op.Chunk? && !job.hostOut {
      assert TailKept(job, op.k, Overlay(m.dsts[op.k], 0, Said(job, op.k).bytes));
    }
  }
}
