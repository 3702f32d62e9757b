/** The host side of the streaming pipeline.

    The host and the device run at the same time. Before each thing the host
    does, `Progress` lets the device run any number of queued steps, or fault;
    so every statement here is about every interleaving and every fault. While
    the stream has not faulted, the memory the queue will leave behind is the
    memory a host that waited after every call would have: the host's own
    actions are stated on that settled memory. */
module WavePipeline {
  import opened Bits
  import opened Cudec
  import opened DeviceQueue

  const SIZE_MAX := UINT64_MAX
  const WAVE_STAGING_BUDGET: nat := 0x1800_0000
  const WAVE_CHUNKS_MAX: nat := 4096
  const RECORD_BYTES := 16
  const MAX_BATCH_CHUNKS: nat := 0x7FFF_FFFF * 32

  // ----- sizing the waves -----

  /** What a chunk is charged against the staging budget, clamped to a size_t. */
  function Charge(job: Job, k: nat): nat
    requires k < |job.srcs| && k < |job.caps|
  {
    var bytes := |job.srcs[k]|;
    if !job.hostOut then bytes
    else if SIZE_MAX - bytes < job.caps[k] then SIZE_MAX else bytes + job.caps[k]
  }

  ghost predicate FitsSizeT(job: Job)
    requires JobOk(job)
  {
    forall k :: 0 <= k < |job.srcs| ==> |job.srcs[k]| <= SIZE_MAX && job.caps[k] <= SIZE_MAX
  }

  ghost predicate ChargedBelow(job: Job, n: nat, m: nat)
    requires JobOk(job) && n <= |job.srcs|
  {
    forall k :: 0 <= k < n ==> Charge(job, k) <= m
  }

  /** The largest charge among the first `n` chunks, or one if all are free. */
  function MostCharged(job: Job, n: nat): (m: nat)
    requires JobOk(job) && n <= |job.srcs|
    ensures m >= 1
  {
    if n == 0 then 1
    else if Charge(job, n - 1) > MostCharged(job, n - 1) then Charge(job, n - 1)
    else MostCharged(job, n - 1)
  }

  /** How many chunks a wave of this job has; the last may have fewer. */
  function WaveChunks(job: Job): (wave: nat)
    requires JobOk(job) && 1 <= |job.srcs|
    ensures wave >= 1
  {
    var fit := WAVE_STAGING_BUDGET / MostCharged(job, |job.srcs|);
    Least(Least(if fit == 0 then 1 else fit, WAVE_CHUNKS_MAX), |job.srcs|)
  }

  /** Waves start at the first chunk and every `wave` chunks behind it. */
  predicate WaveStart(k: nat, wave: nat)
    requires wave >= 1
  {
    k == 0 || (k >= wave && WaveStart(k - wave, wave))
  }

  lemma {:induction false} NextWaveStart(k: nat, d: nat, wave: nat)
    requires wave >= 1 && WaveStart(k, wave) && 0 < d <= wave
    ensures WaveStart(k + d, wave) <==> d == wave
  {
    if k > 0 && d < wave { NextWaveStart(k - wave, d, wave); }
  }

  /** The batch entry accepts every wave that starts below `n`. */
  ghost predicate AllAccepted(env: Environment, wave: nat, n: nat)
    requires wave >= 1
  {
    forall k: nat :: k < n && WaveStart(k, wave) ==> env.entry(k) == Okay
  }

  lemma NoneAccepted(env: Environment, wave: nat)
    requires wave >= 1
    ensures AllAccepted(env, wave, 0) && WaveStart(0, wave)
  {
  }

  lemma AcceptedFurther(env: Environment, wave: nat, begin: nat, end: nat)
    requires wave >= 1 && AllAccepted(env, wave, begin) && WaveStart(begin, wave) && env.entry(begin) == Okay
    requires begin < end <= begin + wave
    ensures AllAccepted(env, wave, end) && (end == begin + wave ==> WaveStart(end, wave))
  {
    forall k: nat | k < end && WaveStart(k, wave) ensures env.entry(k) == Okay {
      if k > begin { NextWaveStart(begin, k - begin, wave); }
    }
    NextWaveStart(begin, end - begin, wave);
  }

  /** The widest wave that the budget, the chunk ceiling and the batch admit,
      and never less than one chunk. */
  method ChooseWaveChunks(job: Job) returns (wave: nat, ghost perChunkMax: nat)
    requires JobOk(job) && FitsSizeT(job) && 1 <= |job.srcs|
    ensures wave == WaveChunks(job)
    ensures perChunkMax >= 1 && ChargedBelow(job, |job.srcs|, perChunkMax)
    ensures perChunkMax == 1 || exists k :: 0 <= k < |job.srcs| && Charge(job, k) == perChunkMax
    ensures 1 <= wave <= WAVE_CHUNKS_MAX && wave <= |job.srcs|
    ensures wave == 1 || wave * perChunkMax <= WAVE_STAGING_BUDGET
    ensures wave == WAVE_CHUNKS_MAX || wave == |job.srcs| || (wave + 1) * perChunkMax > WAVE_STAGING_BUDGET
  {
    var most: nat := 1;
    for i := 0 to |job.srcs|
      invariant most == MostCharged(job, i) && ChargedBelow(job, i, most)
      invariant most == 1 || exists k :: 0 <= k < i && Charge(job, k) == most
    {
      var bytes := |job.srcs[i]|;
      if job.hostOut {
        bytes := if SIZE_MAX - bytes < job.caps[i] then SIZE_MAX else bytes + job.caps[i];
      }
      assert bytes == Charge(job, i);
      if bytes > most {
        most := bytes;
      }
    }
    perChunkMax := most;
    WidestWave(job);
    wave := WAVE_STAGING_BUDGET / most;
    if wave == 0 {
      wave := 1;
    }
    if wave > WAVE_CHUNKS_MAX {
      wave := WAVE_CHUNKS_MAX;
    }
    if wave > |job.srcs| {
      wave := |job.srcs|;
    }
  }

  lemma WidestWave(job: Job)
    requires JobOk(job) && 1 <= |job.srcs|
    ensures var wave, most := WaveChunks(job), MostCharged(job, |job.srcs|);
            && 1 <= wave <= WAVE_CHUNKS_MAX && wave <= |job.srcs|
            && (wave == 1 || wave * most <= WAVE_STAGING_BUDGET)
            && (wave == WAVE_CHUNKS_MAX || wave == |job.srcs| || (wave + 1) * most > WAVE_STAGING_BUDGET)
  {
    hide MostCharged;
    var most := MostCharged(job, |job.srcs|);
    var fit := WAVE_STAGING_BUDGET / most;
    QuotientBounds(WAVE_STAGING_BUDGET, most);
    var wave := WaveChunks(job);
    if fit == 0 {
      assert (1 + 1) * most == most + most;
    } else {
      MulMono(wave, fit, most);
    }
  }

  lemma {:induction false} ChargesBoundSums(job: Job, a: nat, b: nat, m: nat)
    requires JobOk(job) && a <= b <= |job.srcs| && ChargedBelow(job, |job.srcs|, m) && m < SIZE_MAX
    ensures SrcSum(job, a, b) + (if job.hostOut then CapSum(job, a, b) else 0) <= (b - a) * m
  {
    if a < b {
      ChargesBoundSums(job, a, b - 1, m);
      Distribute(b - 1 - a, 1, m);
      assert Charge(job, b - 1) <= m;
    }
  }

  /** A wave of more than one chunk stages no more than the budget, however the
      sizes are distributed; so the exact sums the planner makes cannot overflow. */
  lemma WaveFitsBudget(job: Job, a: nat, b: nat, wave: nat, m: nat)
    requires JobOk(job) && FitsSizeT(job) && a <= b <= |job.srcs| && b - a <= wave
    requires m >= 1 && ChargedBelow(job, |job.srcs|, m)
    requires wave == 1 || wave * m <= WAVE_STAGING_BUDGET
    ensures b - a <= 1 || SrcSum(job, a, b) + (if job.hostOut then CapSum(job, a, b) else 0) <= WAVE_STAGING_BUDGET
    ensures SrcSum(job, a, b) <= SIZE_MAX && (job.hostOut ==> CapSum(job, a, b) <= SIZE_MAX)
  {
    if b - a <= 1 {
      if a < b { assert b - 1 == a; }
    } else {
      MulMono(1, wave, m);
      ChargesBoundSums(job, a, b, m);
      MulMono(b - a, wave, m);
    }
  }

  function WaveEnd(begin: nat, wave: nat, n: nat): nat {
    if begin + wave < n then begin + wave else n
  }

  /** Every wave from `begin` on fits staging of these sizes. */
  ghost predicate WavesFit(job: Job, begin: nat, wave: nat, src: nat, dst: nat)
    requires JobOk(job) && wave >= 1
    decreases |job.srcs| - begin
  {
    begin >= |job.srcs|
    || var end := WaveEnd(begin, wave, |job.srcs|);
       && SrcSum(job, begin, end) <= src && (job.hostOut ==> CapSum(job, begin, end) <= dst)
       && WavesFit(job, end, wave, src, dst)
  }

  /** The largest wave of the call. The overflow refusal is kept, and is never
      taken. */
  method PlanWaves(job: Job, wave: nat, ghost perChunkMax: nat) returns (ok: bool, maxSrc: nat, maxDst: nat)
    requires JobOk(job) && FitsSizeT(job) && wave >= 1 && perChunkMax >= 1 && ChargedBelow(job, |job.srcs|, perChunkMax)
    requires wave == 1 || wave * perChunkMax <= WAVE_STAGING_BUDGET
    ensures ok && WavesFit(job, 0, wave, maxSrc, maxDst)
  {
    maxSrc, maxDst := 0, 0;
    var begin, n := 0, |job.srcs|;
    while begin < n
      invariant begin <= n
      invariant forall src, dst :: src >= maxSrc && dst >= maxDst && WavesFit(job, begin, wave, src, dst) ==>
                                     WavesFit(job, 0, wave, src, dst)
      decreases n - begin
    {
      var end := WaveEnd(begin, wave, n);
      var wsrc, wdst := 0, 0;
      for i := begin to end
        invariant wsrc == SrcSum(job, begin, i) <= SIZE_MAX
        invariant wdst == if job.hostOut then CapSum(job, begin, i) else 0
        invariant wdst <= SIZE_MAX
      {
        WaveFitsBudget(job, begin, i + 1, wave, perChunkMax);
        if SIZE_MAX - wsrc < |job.srcs[i]| {
          assert false;
        }
        wsrc := wsrc + |job.srcs[i]|;
        if job.hostOut {
          if SIZE_MAX - wdst < job.caps[i] {
            assert false;
          }
          wdst := wdst + job.caps[i];
        }
      }
      if wsrc > maxSrc {
        maxSrc := wsrc;
      }
      if wdst > maxDst {
        maxDst := wdst;
      }
      begin := end;
    }
    assert WavesFit(job, begin, wave, maxSrc, maxDst);
    ok := true;
  }

  // ----- the settled memory, wave by wave -----

  /** Chunks below `k` are decoded, reported and delivered; the rest are untouched. */
  ghost predicate Through(job: Job, k: nat, m: Memory)
    requires JobOk(job) && k <= |job.srcs|
  {
    && Sized(job, m)
    && (forall i :: 0 <= i < |job.srcs| ==> m.pRes[i] == if i < k then Reported(job, i) else Stamp)
    && (forall i :: 0 <= i < |job.srcs| ==> m.dsts[i] == if i < k then Expected(job, i) else job.dsts[i])
  }

  /** The staging is big enough for a wave. */
  ghost predicate Roomy(job: Job, begin: nat, end: nat, wave: nat, m: Memory)
    requires JobOk(job) && begin <= end <= |job.srcs|
  {
    && SrcSum(job, begin, end) <= |m.pSrc| && SrcSum(job, begin, end) <= |m.dSrc|
    && wave <= |m.pMeta| && wave <= |m.dMeta|
    && (job.hostOut ==> CapSum(job, begin, end) <= |m.dDst|)
  }

  ghost predicate SameShape(a: Memory, b: Memory) {
    && |a.pSrc| == |b.pSrc| && |a.dSrc| == |b.dSrc| && |a.pMeta| == |b.pMeta| && |a.dMeta| == |b.dMeta|
    && |a.dDst| == |b.dDst| && |a.dRes| == |b.dRes| && |a.pRes| == |b.pRes|
  }

  lemma {:induction false} RunKeepsShape(job: Job, m: Memory, ops: seq<Op>)
    ensures SameShape(Run(job, m, ops), m)
    decreases |ops|
  {
    if ops != [] { RunKeepsShape(job, Exec(job, m, ops[0]), ops[1..]); }
  }

  /** Copying the staged wave across loads exactly it. */
  lemma CopiesLoad(job: Job, begin: nat, end: nat, wave: nat, m: Memory)
    requires JobOk(job) && begin <= end <= |job.srcs| && end - begin <= wave
    requires Through(job, begin, m) && Roomy(job, begin, end, wave, m) && Holds(job, begin, end, m.pSrc, m.pMeta)
    ensures Sound(job, m, SrcCopy(SrcSum(job, begin, end)))
    ensures var m1 := Run(job, m, SrcCopy(SrcSum(job, begin, end)));
            && Sound(job, m1, MetaCopy(wave))
            && var m2 := Run(job, m1, MetaCopy(wave));
            && Through(job, begin, m2) && Loaded(job, begin, end, m2) && SameShape(m2, m)
  {
    var total := SrcSum(job, begin, end);
    RunSrcCopy(job, m, total);
    var m1 := Run(job, m, SrcCopy(total));
    RunMetaCopy(job, m1, wave);
    var m2 := Run(job, m1, MetaCopy(wave));
    assert m2.dSrc[..total] == m.pSrc[..total];
    assert m2.dMeta[..end - begin] == m.pMeta[..end - begin];
    HoldsIsLocal(job, begin, end, m.pSrc, m.pMeta, m2.dSrc, m2.dMeta);
  }

  /** Device memory after the launch and its readback. */
  ghost predicate Answered(job: Job, begin: nat, end: nat, m: Memory)
    requires JobOk(job) && begin <= end <= |job.srcs|
  {
    && Sized(job, m)
    && (forall i :: 0 <= i < |job.srcs| ==> m.pRes[i] == if i < end then Reported(job, i) else Stamp)
    && (if job.hostOut then
          && (forall i :: 0 <= i < |job.srcs| ==> m.dsts[i] == if i < begin then Expected(job, i) else job.dsts[i])
          && (forall k :: begin <= k < end ==> InSlot(job, begin, k, m.dDst))
          && CapSum(job, begin, end) <= |m.dDst|
        else Through(job, end, m))
  }

  lemma LaunchAnswers(job: Job, begin: nat, end: nat, order: seq<nat>, m: Memory)
    requires JobOk(job) && begin <= end <= |job.srcs| && Through(job, begin, m) && Loaded(job, begin, end, m)
    requires Order(order, begin, end)
    ensures Sound(job, m, Kernel(begin, order))
    ensures var m1 := Run(job, m, Kernel(begin, order));
            && Sound(job, m1, Results(begin, end - begin))
            && Answered(job, begin, end, Run(job, m1, Results(begin, end - begin)))
  {
    hide Holds, HoldsChunk, Sound, Exec, Run;
    RunKernel(job, begin, end, order, m);
    var m1 := Run(job, m, Kernel(begin, order));
    RunResults(job, begin, end - begin, end - begin, m1);
    var m2 := Run(job, m1, Results(begin, end - begin));
    AnswersRead(job, begin, end, order, m, m1, m2);
  }

  lemma AnswersRead(job: Job, begin: nat, end: nat, order: seq<nat>, m: Memory, m1: Memory, m2: Memory)
    requires JobOk(job) && begin <= end <= |job.srcs| && Through(job, begin, m) && Loaded(job, begin, end, m)
    requires Order(order, begin, end) && Decoded(job, begin, end, order, m, m1) && m2 == m1.(pRes := m2.pRes) && |m2.pRes| == |m1.pRes|
    requires forall k :: 0 <= k < |m1.pRes| ==> m2.pRes[k] == if begin <= k < end then m1.dRes[k] else m1.pRes[k]
    ensures Answered(job, begin, end, m2)
  {
    hide Holds, HoldsChunk;
  }

  // ----- what the runtime answers -----

  /** Everything the host does not decide. Each time it lets the device run, or
      makes a runtime call that can fail, it asks the next question: `steps` is
      how far the device gets and `goesWrong` whether the stream faults or the
      call fails. `entry` is the batch entry's answer to the wave that begins at a
      chunk; an answer that is not Okay has submitted nothing. */
  datatype Environment = Environment(steps: nat -> nat, goesWrong: nat -> bool, entry: nat -> Status)

  /** Nothing went wrong at the questions from `a` up to `b`. */
  ghost predicate Calm(env: Environment, a: nat, b: nat) {
    forall t :: a <= t < b ==> !env.goesWrong(t)
  }

  /** A chunk whose decoder claims more than its capacity, on the path where the
      claim becomes the length of a host write. */
  predicate Overclaims(job: Job, k: nat)
    requires k < |job.srcs| && k < |job.caps|
  {
    job.hostOut && Said(job, k).claim > job.caps[k]
  }

  ghost predicate NoOverclaim(job: Job, a: nat, b: nat)
    requires JobOk(job) && b <= |job.srcs|
  {
    forall k :: a <= k < b ==> !Overclaims(job, k)
  }

  // ----- the context -----

  class StreamCtx {
    const env: Environment
    var clock: nat
    var mem: Memory
    var queue: seq<Op>
    var faulted: bool
    var poisoned: bool

    constructor (env: Environment)
      ensures Valid() && !poisoned && this.env == env && clock == 0
    {
      this.env, clock := env, 0;
      mem := Memory([], [], [], [], [], [], [], []);
      queue, faulted, poisoned := [], false, false;
    }

    /** Between calls nothing is in flight, and only a poisoned context has seen
        a fault. */
    ghost predicate Valid()
      reads this
    {
      queue == [] && (faulted ==> poisoned)
    }

    /** What holds at every moment of a call. */
    ghost predicate Consistent(job: Job)
      reads this
    {
      && JobOk(job) && Safe(job, mem) && Sound(job, mem, queue)
      && (faulted ==> queue == [])
    }

    /** The memory the queue will leave behind. */
    ghost function Settled(job: Job): Memory
      reads this
    {
      Run(job, mem, queue)
    }

    /** Some device steps happen, in order, and then perhaps a fault. */
    method Progress(job: Job)
      requires Consistent(job)
      modifies this`mem, this`queue, this`faulted, this`clock
      ensures Consistent(job) && clock == old(clock) + 1 && faulted == (old(faulted) || env.goesWrong(old(clock)))
      ensures !faulted ==> Settled(job) == old(Settled(job))
      ensures mem.pSrc == old(mem.pSrc) && mem.pMeta == old(mem.pMeta) && SameShape(mem, old(mem))
      ensures Quiet(old(queue)) ==> Quiet(queue)
      ensures Gated(old(queue)) ==> Gated(queue)
    {
      for i := 0 to env.steps(clock)
        invariant Consistent(job) && faulted == old(faulted) && clock == old(clock)
        invariant Settled(job) == old(Settled(job))
        invariant mem.pSrc == old(mem.pSrc) && mem.pMeta == old(mem.pMeta) && SameShape(mem, old(mem))
        invariant Quiet(old(queue)) ==> Quiet(queue)
        invariant Gated(old(queue)) ==> Gated(queue)
      {
        if queue != [] {
          Step(job);
        }
      }
      if env.goesWrong(clock) {
        faulted, queue := true, [];
      }
      clock := clock + 1;
    }

    /** A runtime call that may fail. */
    method Call() returns (ok: bool)
      modifies this`clock
      ensures clock == old(clock) + 1 && ok == !env.goesWrong(old(clock))
    {
      ok := !env.goesWrong(clock);
      clock := clock + 1;
    }

    /** The device runs the step at the head of the queue. */
    method Step(job: Job)
      requires Consistent(job) && queue != []
      modifies this`mem, this`queue
      ensures Consistent(job) && queue == old(queue)[1..]
      ensures Settled(job) == old(Settled(job))
      ensures mem.pSrc == old(mem.pSrc) && mem.pMeta == old(mem.pMeta) && SameShape(mem, old(mem))
      ensures Quiet(old(queue)) ==> Quiet(queue)
      ensures Gated(old(queue)) ==> Gated(queue)
    {
      ExecIsSafe(job, mem, queue[0]);
      GatedSuffix(queue, 1);
      mem := Exec(job, mem, queue[0]);
      queue := queue[1..];
    }

    /** The host blocks until the queue is empty, or until the stream faults. */
    method Synchronize(job: Job) returns (ok: bool)
      requires Consistent(job)
      modifies this`mem, this`queue, this`faulted, this`clock
      ensures Consistent(job) && queue == [] && ok == !faulted && SameShape(mem, old(mem)) && clock >= old(clock)
      ensures faulted <==> old(faulted) || !Calm(env, old(clock), clock)
      ensures ok ==> mem == old(Settled(job))
    {
      Progress(job);
      while queue != []
        invariant Consistent(job) && clock == old(clock) + 1 && SameShape(mem, old(mem))
        invariant faulted == (old(faulted) || env.goesWrong(old(clock)))
        invariant !faulted ==> Settled(job) == old(Settled(job))
        decreases |queue|
      {
        Step(job);
      }
      var synced := Call();
      if !synced {
        faulted := true;
      }
      ok := !faulted;
    }

    /** The host blocks until the reuse event it last recorded has completed. */
    method WaitReuse(job: Job) returns (ok: bool)
      requires Consistent(job) && Gated(queue)
      modifies this`mem, this`queue, this`faulted, this`clock
      ensures Consistent(job) && (old(faulted) ==> faulted) && clock >= old(clock)
      ensures ok && !faulted <==> !old(faulted) && Calm(env, old(clock), clock)
      ensures !faulted ==> Settled(job) == old(Settled(job))
      ensures ok ==> Quiet(queue)
      ensures mem.pSrc == old(mem.pSrc) && mem.pMeta == old(mem.pMeta) && SameShape(mem, old(mem))
    {
      hide Safe, Sound, Run, Exec;
      Progress(job);
      while Reused in queue
        invariant Consistent(job) && clock == old(clock) + 1 && Gated(queue)
        invariant faulted == (old(faulted) || env.goesWrong(old(clock)))
        invariant !faulted ==> Settled(job) == old(Settled(job))
        invariant mem.pSrc == old(mem.pSrc) && mem.pMeta == old(mem.pMeta) && SameShape(mem, old(mem))
        decreases |queue|
      {
        Step(job);
      }
      ReuseIsSafe(queue);
      ok := Call();
    }

    /** An asynchronous operation is queued, or the call that queues it fails. On
        a stream that has faulted it is never run. */
    method Enqueue(job: Job, ops: seq<Op>) returns (ok: bool)
      requires Consistent(job)
      requires !faulted ==> Sound(job, Settled(job), ops)
      modifies this`mem, this`queue, this`faulted, this`clock
      ensures Consistent(job) && (old(faulted) ==> faulted) && clock >= old(clock)
      ensures ok && !faulted <==> !old(faulted) && Calm(env, old(clock), clock)
      ensures ok && !faulted ==> Settled(job) == Run(job, old(Settled(job)), ops)
      ensures !ok && !faulted ==> Settled(job) == old(Settled(job))
      ensures ok && ops == [Reused] ==> Gated(queue)
      ensures ok && Gated(old(queue)) && Quiet(ops) ==> Gated(queue)
      ensures mem.pSrc == old(mem.pSrc) && mem.pMeta == old(mem.pMeta) && SameShape(mem, old(mem))
    {
      Progress(job);
      ok := Call();
      if ok && !faulted {
        Append(job, ops);
      }
    }

    method Append(job: Job, ops: seq<Op>)
      requires Consistent(job) && !faulted && Sound(job, Settled(job), ops)
      modifies this`queue
      ensures Consistent(job) && Settled(job) == Run(job, old(Settled(job)), ops)
      ensures ops == [Reused] ==> Gated(queue)
      ensures Gated(old(queue)) && Quiet(ops) ==> Gated(queue)
    {
      GatedAppend(queue, ops);
      SoundAppend(job, mem, queue, ops);
      RunAppend(job, mem, queue, ops);
      queue := queue + ops;
    }

    /** The batch entry is asked to launch a wave's chunks. If it declines, nothing
        is queued. */
    method Launch(job: Job, begin: nat, ops: seq<Op>) returns (status: Status)
      requires Consistent(job)
      requires !faulted ==> Sound(job, Settled(job), ops)
      requires Gated(queue) && Quiet(ops)
      modifies this`mem, this`queue, this`faulted, this`clock
      ensures Consistent(job) && (old(faulted) ==> faulted) && clock >= old(clock)
      ensures !faulted <==> !old(faulted) && Calm(env, old(clock), clock)
      ensures status == env.entry(begin) && Gated(queue)
      ensures !faulted ==> Settled(job) == if status == Okay then Run(job, old(Settled(job)), ops) else old(Settled(job))
      ensures SameShape(mem, old(mem))
    {
      Progress(job);
      status := env.entry(begin);
      if status == Okay && !faulted {
        Append(job, ops);
      }
    }

    /** The host copies one chunk into pinned staging and writes its metadata,
        while the device goes on. */
    method StageChunk(job: Job, begin: nat, k: nat, srcOff: nat, dstOff: nat)
      requires Consistent(job) && Quiet(queue) && begin <= k < |job.srcs|
      requires srcOff == SrcSum(job, begin, k) && dstOff == if job.hostOut then CapSum(job, begin, k) else 0
      requires Holds(job, begin, k, mem.pSrc, mem.pMeta)
      requires k - begin < |mem.pMeta| && SrcSum(job, begin, k + 1) <= |mem.pSrc|
      modifies this`mem, this`queue, this`faulted, this`clock
      ensures Consistent(job) && Quiet(queue) && clock == old(clock) + 1 && faulted == (old(faulted) || env.goesWrong(old(clock)))
      ensures Holds(job, begin, k + 1, mem.pSrc, mem.pMeta) && SameShape(mem, old(mem))
      ensures !faulted ==> Settled(job) == old(Settled(job)).(pSrc := mem.pSrc, pMeta := mem.pMeta)
    {
      hide Holds;
      Progress(job);
      HoldsOneMore(job, begin, k, mem.pSrc, mem.pMeta);
      var target := if job.hostOut then Slot(dstOff) else Buffer(k);
      var src := Overlay(mem.pSrc, srcOff, job.srcs[k]);
      var meta := mem.pMeta[k - begin := Meta(srcOff, |job.srcs[k]|, target, job.caps[k])];
      StagingCommutes(job, mem, queue, src, meta);
      mem := mem.(pSrc := src, pMeta := meta);
    }

    /** The whole wave into pinned staging. */
    method StageWave(job: Job, begin: nat, end: nat, wave: nat) returns (srcOff: nat)
      requires Consistent(job) && Quiet(queue) && begin <= end <= |job.srcs| && end - begin <= wave
      requires Roomy(job, begin, end, wave, mem)
      requires !faulted ==> Through(job, begin, Settled(job))
      modifies this`mem, this`queue, this`faulted, this`clock
      ensures Consistent(job) && Quiet(queue) && SameShape(mem, old(mem)) && clock >= old(clock)
      ensures faulted <==> old(faulted) || !Calm(env, old(clock), clock)
      ensures srcOff == SrcSum(job, begin, end)
      ensures !faulted ==> Through(job, begin, Settled(job)) && Holds(job, begin, end, Settled(job).pSrc, Settled(job).pMeta)
    {
      hide Holds, Run, Through, Safe, Sound, SrcSum, CapSum;
      var dstOff := 0;
      srcOff := 0;
      NothingStaged(job, begin, mem);
      for k := begin to end
        invariant Consistent(job) && Quiet(queue) && SameShape(mem, old(mem)) && clock >= old(clock)
        invariant faulted <==> old(faulted) || !Calm(env, old(clock), clock)
        invariant srcOff == SrcSum(job, begin, k) && dstOff == if job.hostOut then CapSum(job, begin, k) else 0
        invariant Holds(job, begin, k, mem.pSrc, mem.pMeta)
        invariant !faulted ==> Through(job, begin, Settled(job))
      {
        SumsGrow(job, begin, k + 1, end);
        NextSlot(job, begin, k);
        ghost var settled := Settled(job);
        StageChunk(job, begin, k, srcOff, dstOff);
        if !faulted {
          ThroughPinned(job, begin, settled, mem.pSrc, mem.pMeta);
        }
        if job.hostOut {
          dstOff := dstOff + job.caps[k];
        }
        srcOff := srcOff + |job.srcs[k]|;
      }
      RunKeepsPinned(job, mem, queue);
    }

    /** The staged wave is queued for the device, the reuse event behind it. */
    method SendWave(job: Job, begin: nat, end: nat, wave: nat, total: nat) returns (ok: bool)
      requires Consistent(job) && begin <= end <= |job.srcs| && end - begin <= wave
      requires Roomy(job, begin, end, wave, mem) && total == SrcSum(job, begin, end)
      requires !faulted ==> Through(job, begin, Settled(job)) && Holds(job, begin, end, Settled(job).pSrc, Settled(job).pMeta)
      modifies this`mem, this`queue, this`faulted, this`clock
      ensures Consistent(job) && (old(faulted) ==> faulted) && SameShape(mem, old(mem)) && clock >= old(clock)
      ensures ok && !faulted <==> !old(faulted) && Calm(env, old(clock), clock)
      ensures ok ==> Gated(queue)
      ensures ok && !faulted ==> Through(job, begin, Settled(job)) && Loaded(job, begin, end, Settled(job))
    {
      hide Holds, HoldsChunk, Run, Sound, Through, Loaded, Gated, Quiet, Safe;
      if !faulted {
        RunKeepsShape(job, mem, queue);
        CopiesLoad(job, begin, end, wave, Settled(job));
        NothingToCopy(job, Settled(job));
      }
      if total != 0 {
        ok := Enqueue(job, SrcCopy(total));
        if !ok {
          return;
        }
      }
      ok := Enqueue(job, MetaCopy(wave));
      if !ok {
        return;
      }
      ReuseIsNothing(job, Settled(job));
      ok := Enqueue(job, [Reused]);
    }

    /** One wave, up to its results being on their way back. A launch that is
        refused has queued nothing. */
    method SubmitWave(job: Job, begin: nat, end: nat, wave: nat, havePending: bool) returns (status: Status, refused: bool)
      requires Consistent(job) && begin < end <= |job.srcs| && end - begin <= wave
      requires Roomy(job, begin, end, wave, mem)
      requires Gated(queue) && (!havePending ==> queue == [])
      requires !faulted ==> Through(job, begin, Settled(job))
      modifies this`mem, this`queue, this`faulted, this`clock
      ensures Consistent(job) && (old(faulted) ==> faulted) && SameShape(mem, old(mem)) && clock >= old(clock)
      ensures (status == Okay || refused) && !faulted <==> !old(faulted) && Calm(env, old(clock), clock)
      ensures refused ==> status == env.entry(begin) != Okay
      ensures status == Okay ==> Gated(queue) && !refused && env.entry(begin) == Okay
      ensures status == Okay && !faulted ==> Answered(job, begin, end, Settled(job))
      ensures refused && !faulted ==> Through(job, begin, Settled(job))
      ensures status != Okay && !refused ==> status == DeviceError
    {
      hide Holds, HoldsChunk, Run, Sound, Through, Loaded, Answered, Gated, Quiet, Safe;
      status, refused := DeviceError, false;
      QuietWhenEmpty();
      if havePending {
        var waited := WaitReuse(job);
        if !waited {
          return;
        }
      }
      var total := StageWave(job, begin, end, wave);
      var sent := SendWave(job, begin, end, wave, total);
      if !sent {
        return;
      }
      // The device runs the launch's chunks in an order of its own.
      SomeOrder(begin, end);
      var order: seq<nat> :| Order(order, begin, end);
      if !faulted {
        LaunchAnswers(job, begin, end, order, Settled(job));
      }
      LaunchIsQuiet(begin, end, order);
      var launched := Launch(job, begin, Kernel(begin, order));
      if launched != Okay {
        return launched, true;
      }
      var read := Enqueue(job, Results(begin, end - begin));
      if !read {
        return;
      }
      status := Okay;
    }

    /** One drained wave's bytes, out of the destination staging and into the
        caller's buffers. */
    method CopyWaveToHost(job: Job, begin: nat, end: nat) returns (status: Status)
      requires Consistent(job) && queue == [] && !faulted && job.hostOut
      requires begin <= end <= |job.srcs| && Answered(job, begin, end, mem)
      modifies this`mem, this`clock
      ensures Consistent(job) && SameShape(mem, old(mem)) && clock >= old(clock)
      ensures status == Okay ==> Through(job, end, mem)
      ensures status == Okay <==> NoOverclaim(job, begin, end) && Calm(env, old(clock), clock)
      ensures status == Okay || status == DeviceError
    {
      hide Holds, HoldsChunk, Run, Overlay, Slice, InSlot, Safe, CapSum;
      var off := 0;
      AnsweringBegins(job, begin, end, mem);
      for k := begin to end
        invariant off == CapSum(job, begin, k)
        invariant Consistent(job) && SameShape(mem, old(mem)) && Answering(job, begin, k, end, mem)
        invariant NoOverclaim(job, begin, k) && clock >= old(clock) && Calm(env, old(clock), clock)
      {
        status := CopyChunkToHost(job, begin, k, end, off);
        if status != Okay {
          return;
        }
        NextSlot(job, begin, k);
        off := off + job.caps[k];
      }
      status := Okay;
    }

    /** A chunk whose reported length passes its capacity fails the wave, and its
        buffer is as it was; any other gets exactly that many bytes. */
    method CopyChunkToHost(job: Job, begin: nat, k: nat, end: nat, off: nat) returns (status: Status)
      requires Consistent(job) && queue == [] && !faulted && job.hostOut
      requires begin <= k < end <= |job.srcs| && Answering(job, begin, k, end, mem) && off == CapSum(job, begin, k)
      modifies this`mem, this`clock
      ensures Consistent(job) && SameShape(mem, old(mem)) && clock >= old(clock)
      ensures Overclaims(job, k) ==> status == DeviceError && mem == old(mem).(pRes := old(mem.pRes)[k := Stamp])
      ensures status == Okay <==> !Overclaims(job, k) && Calm(env, old(clock), clock)
      ensures status == Okay ==> Answering(job, begin, k + 1, end, mem)
      ensures status == Okay || status == DeviceError
    {
      hide Holds, HoldsChunk, Run, Overlay, Slice, InSlot, CapSum, Delivered;
      status := DeviceError;
      var bw := mem.pRes[k].written;
      if bw > job.caps[k] {
        mem := mem.(pRes := mem.pRes[k := Stamp]);
        return;
      }
      DeliveredFromSlot(job, begin, k, end, mem.dDst);
      if bw != 0 {
        var copied := Call();
        var bytes := Slice(mem.dDst, off, bw);
        if !copied {
          // A copy that fails may have left anything in the part it was to write.
          bytes :| |bytes| == bw;
          JunkKeepsTail(job, k, mem.dsts[k], bytes);
        }
        mem := mem.(dsts := mem.dsts[k := Overlay(mem.dsts[k], 0, bytes)]);
        if !copied {
          return;
        }
      }
      status := Okay;
    }

    /** Every wave in turn. `upTo` is where the loop stopped. */
    method RunWaves(job: Job, wave: nat) returns (status: Status, refused: bool, ghost upTo: nat)
      requires Consistent(job) && queue == [] && !faulted && Through(job, 0, mem)
      requires wave >= 1 && StagingFits(job, 0, wave, mem)
      modifies this`mem, this`queue, this`faulted, this`clock
      ensures Consistent(job) && upTo <= |job.srcs| && clock >= old(clock)
      ensures !Calm(env, old(clock), clock) ==> faulted || (status != Okay && !refused)
      ensures Calm(env, old(clock), clock) ==> !faulted && (status == Okay || refused || !NoOverclaim(job, 0, |job.srcs|))
      ensures refused ==> upTo < |job.srcs| && status == env.entry(upTo) != Okay && WaveStart(upTo, wave)
      ensures status == Okay || refused ==> NoOverclaim(job, 0, upTo) && AllAccepted(env, wave, upTo)
      ensures status == Okay ==> !refused && upTo == |job.srcs| && (!faulted ==> Through(job, upTo, Settled(job)))
      ensures refused && !faulted ==> Through(job, upTo, Settled(job))
      ensures status != Okay && !refused ==> status == DeviceError
    {
      hide Safe, Sound, Through, Answered, Gated, SrcSum, CapSum, WavesFit, AllAccepted, WaveStart;
      var begin, n := 0, |job.srcs|;
      status, refused, upTo := Okay, false, 0;
      QuietWhenEmpty();
      NoneAccepted(env, wave);
      while begin < n
        invariant upTo == begin <= n && status == Okay && !refused
        invariant Consistent(job) && Gated(queue) && (begin == 0 ==> queue == [])
        invariant StagingFits(job, begin, wave, mem)
        invariant AllAccepted(env, wave, begin) && (begin < n ==> WaveStart(begin, wave))
        invariant !faulted ==> Through(job, begin, Settled(job))
        invariant clock >= old(clock) && (faulted <==> !Calm(env, old(clock), clock)) && NoOverclaim(job, 0, begin)
        decreases n - begin
      {
        var end := WaveEnd(begin, wave, n);
        WaveIsRoomy(job, begin, wave, mem);
        status, refused := SubmitWave(job, begin, end, wave, begin != 0);
        if status != Okay {
          return;
        }
        if job.hostOut {
          var drained := Synchronize(job);
          if !drained {
            status := DeviceError;
            return;
          }
          status := CopyWaveToHost(job, begin, end);
          if status != Okay {
            return;
          }
          QuietWhenEmpty();
        } else if !faulted {
          AnsweredInPlace(job, begin, end, Settled(job));
        }
        AcceptedFurther(env, wave, begin, end);
        begin := end;
        upTo := begin;
      }
    }

    /** Staging is grown to the call's largest wave. What a grown buffer holds is
        anything at all; a buffer already large enough is kept as it is. */
    method Grow(job: Job, wave: nat, maxSrc: nat, maxDst: nat) returns (ok: bool)
      requires JobOk(job) && queue == [] && !faulted && wave >= 1 && WavesFit(job, 0, wave, maxSrc, maxDst)
      modifies this`mem, this`clock
      ensures clock == old(clock) + 1 && ok == !env.goesWrong(old(clock))
      ensures ok ==> Consistent(job) && Through(job, 0, mem) && StagingFits(job, 0, wave, mem)
      ensures !ok ==> mem == old(mem)
    {
      ok := Call();
      if !ok {
        return;
      }
      var n := |job.srcs|;
      var pSrc := Ensure(mem.pSrc, maxSrc, 0);
      var dSrc := Ensure(mem.dSrc, maxSrc, 0);
      var pMeta := Ensure(mem.pMeta, wave, Meta(0, 0, Slot(0), 0));
      var dMeta := Ensure(mem.dMeta, wave, Meta(0, 0, Slot(0), 0));
      var dDst := mem.dDst;
      if job.hostOut {
        dDst := Ensure(dDst, maxDst, 0);
      }
      var dRes := Ensure(mem.dRes, n, Stamp);
      var pRes := Ensure(mem.pRes, n, Stamp);
      pRes := Repeat(Stamp, n) + pRes[n..];
      mem := Memory(pSrc, pMeta, dSrc, dMeta, dDst, job.dsts, dRes, pRes);
      WavesFitMore(job, 0, wave, maxSrc, maxDst, Least(|pSrc|, |dSrc|), |dDst|);
    }

    /** One call on the context: the waves, the unconditional drain, and what is
        published. `refused` and `upTo` say where the batch entry declined a wave.
        Only a question that went wrong, or an overclaimed length, poisons: a
        chunk its decoder rejects never does, and neither does a declined wave. */
    method DecodeStreamCtx(job: Job) returns (status: Status, results: seq<Record>, ghost refused: bool, ghost upTo: nat)
      requires JobOk(job) && FitsSizeT(job) && 1 <= |job.srcs| <= MAX_BATCH_CHUNKS
      requires Valid() && !poisoned
      modifies this
      ensures Valid() && upTo <= |results| == |job.srcs|
      ensures forall k :: 0 <= k < |job.srcs| ==> results[k] == Stamp || results[k] == Reported(job, k)
      ensures !poisoned && !refused ==>
                && AllAccepted(env, WaveChunks(job), |job.srcs|)
                && results == SequentialResults(job) && mem.dsts == SequentialBuffers(job, |job.srcs|) && status == FirstBad(results) && SpeaksFor(status, results)
      ensures !poisoned && refused ==>
                && status != Okay && mem.dsts == SequentialBuffers(job, upTo)
                && forall k :: 0 <= k < |job.srcs| ==> results[k] == if k < upTo then Reported(job, k) else Stamp
      ensures status == Okay ==> !poisoned && !refused
      ensures poisoned && !refused ==> status == DeviceError
      ensures clock >= old(clock) && (!Calm(env, old(clock), clock) ==> poisoned)
      ensures poisoned ==> !Calm(env, old(clock), clock) || !NoOverclaim(job, 0, |job.srcs|)
      ensures refused ==>
                && upTo < |job.srcs| && status == env.entry(upTo) != Okay
                && WaveStart(upTo, WaveChunks(job)) && AllAccepted(env, WaveChunks(job), upTo)
      ensures !poisoned ==> NoOverclaim(job, 0, if refused then upTo else |job.srcs|)
      ensures |mem.dsts| == |job.srcs| && forall k :: 0 <= k < |job.srcs| ==> TailKept(job, k, mem.dsts[k])
    {
      hide ChargedBelow, FitsSizeT, SequentialResults, AllAccepted, WaveStart, WaveChunks, Safe, Sound, Through, WavesFit, Said, Run, StagingFits, NoOverclaim, Reported, Expected, TailKept, FirstBad, SpeaksFor;
      refused, upTo, results := false, 0, Repeat(Stamp, |job.srcs|);
      mem := mem.(dsts := job.dsts);
      UntouchedTails(job);
      ghost var perChunkMax;
      var wave, ok, maxSrc, maxDst;
      wave, perChunkMax := ChooseWaveChunks(job);
      ok, maxSrc, maxDst := PlanWaves(job, wave, perChunkMax);
      if |job.srcs| > SIZE_MAX / RECORD_BYTES {
        assert false;
      }
      ok := Grow(job, wave, maxSrc, maxDst);
      if !ok {
        poisoned := true;
        return DeviceError, results, refused, upTo;
      }
      var entryRefused;
      status, entryRefused, upTo := RunWaves(job, wave);
      refused := entryRefused;
      var clean := Synchronize(job);
      SafeSays(job, mem);
      results := mem.pRes[..|job.srcs|];
      if clean && (status == Okay || entryRefused) {
        ThroughSays(job, upTo, mem);
      }
      if !clean && status == Okay {
        status := DeviceError;
      }
      if status != Okay {
        if !entryRefused || !clean {
          poisoned := true;
        }
        return;
      }
      status := Aggregate(results);
    }

    /** The entry a caller sees. An argument reject touches nothing; a poisoned
        context decodes nothing further and stays poisoned; and a call that leaves
        the context alive has decoded exactly what decoding one chunk after
        another would have, unless the batch entry declined a wave. */
    method DecodeOnStreamCtx(job: Job) returns (status: Status, results: seq<Record>, ghost refused: bool, ghost upTo: nat)
      requires JobOk(job) && FitsSizeT(job) && Valid()
      modifies this
      ensures Valid() && clock >= old(clock)
      ensures !(1 <= |job.srcs| <= MAX_BATCH_CHUNKS) ==>
                status == InvalidArgument && results == [] && mem == old(mem) && poisoned == old(poisoned)
      ensures 1 <= |job.srcs| <= MAX_BATCH_CHUNKS && old(poisoned) ==>
                status == DeviceError && results == Repeat(Stamp, |job.srcs|) && mem == old(mem) && poisoned
      ensures 1 <= |job.srcs| <= MAX_BATCH_CHUNKS && !poisoned && !refused ==>
                && AllAccepted(env, WaveChunks(job), |job.srcs|)
                && results == SequentialResults(job) && mem.dsts == SequentialBuffers(job, |job.srcs|) && status == FirstBad(results) && SpeaksFor(status, results)
      ensures refused ==>
                && upTo < |job.srcs| && status == env.entry(upTo) != Okay
                && WaveStart(upTo, WaveChunks(job)) && AllAccepted(env, WaveChunks(job), upTo)
      ensures refused && !poisoned ==>
                && mem.dsts == SequentialBuffers(job, upTo) && |results| == |job.srcs|
                && forall k :: 0 <= k < |job.srcs| ==> results[k] == if k < upTo then Reported(job, k) else Stamp
      ensures poisoned && !old(poisoned) ==> !Calm(env, old(clock), clock) || !NoOverclaim(job, 0, |job.srcs|)
      ensures !Calm(env, old(clock), clock) ==> poisoned
      ensures 1 <= |job.srcs| <= MAX_BATCH_CHUNKS && !old(poisoned) && NoOverclaim(job, 0, |job.srcs|)
              && (forall t :: !env.goesWrong(t)) && AllAccepted(env, WaveChunks(job), |job.srcs|) ==>
                && !poisoned && !refused && results == SequentialResults(job)
                && mem.dsts == SequentialBuffers(job, |job.srcs|) && status == FirstBad(results) && SpeaksFor(status, results)
      ensures status == Okay ==> !poisoned && !refused
      ensures 1 <= |job.srcs| <= MAX_BATCH_CHUNKS && poisoned && !refused ==> status == DeviceError
      ensures forall k :: 0 <= k < |results| ==> results[k] == Stamp || (k < |job.srcs| && results[k] == Reported(job, k))
      ensures 1 <= |job.srcs| <= MAX_BATCH_CHUNKS && !old(poisoned) ==>
                |results| == |mem.dsts| == |job.srcs| && forall k :: 0 <= k < |job.srcs| ==> TailKept(job, k, mem.dsts[k])
    {
      hide NoOverclaim, FitsSizeT, WaveChunks, WaveStart, FirstBad, SpeaksFor;
      refused, upTo := false, 0;
      if |job.srcs| == 0 || |job.srcs| > MAX_BATCH_CHUNKS {
        return InvalidArgument, [], refused, upTo;
      }
      if poisoned {
        return DeviceError, Repeat(Stamp, |job.srcs|), refused, upTo;
      }
      status, results, refused, upTo := DecodeStreamCtx(job);
    }
  }

  lemma NothingStaged(job: Job, begin: nat, m: Memory)
    requires JobOk(job) && begin <= |job.srcs|
    ensures SrcSum(job, begin, begin) == 0 && CapSum(job, begin, begin) == 0
    ensures Holds(job, begin, begin, m.pSrc, m.pMeta)
  {
  }

  /** What the waves so far have come to does not depend on pinned staging. */
  lemma ThroughPinned(job: Job, k: nat, m: Memory, src: seq<byte>, meta: seq<Meta>)
    requires JobOk(job) && k <= |job.srcs| && Through(job, k, m)
    ensures Through(job, k, m.(pSrc := src, pMeta := meta))
  {
  }

  lemma NextSlot(job: Job, begin: nat, k: nat)
    requires JobOk(job) && begin <= k < |job.srcs|
    ensures SrcSum(job, begin, k + 1) == SrcSum(job, begin, k) + |job.srcs[k]|
    ensures CapSum(job, begin, k + 1) == CapSum(job, begin, k) + job.caps[k]
    ensures CapSum(job, begin, begin) == 0
  {
  }

  lemma AnsweringBegins(job: Job, begin: nat, end: nat, m: Memory)
    requires JobOk(job) && job.hostOut && begin <= end <= |job.srcs| && Answered(job, begin, end, m)
    ensures Answering(job, begin, begin, end, m) && CapSum(job, begin, begin) == 0
  {
  }

  /** The staging holds every wave from `begin` on. */
  ghost predicate StagingFits(job: Job, begin: nat, wave: nat, m: Memory)
    requires JobOk(job) && wave >= 1
  {
    WavesFit(job, begin, wave, Least(|m.pSrc|, |m.dSrc|), |m.dDst|) && wave <= |m.pMeta| && wave <= |m.dMeta|
  }

  function Least(a: nat, b: nat): nat {
    if a < b then a else b
  }

  lemma WaveIsRoomy(job: Job, begin: nat, wave: nat, m: Memory)
    requires JobOk(job) && wave >= 1 && begin < |job.srcs| && StagingFits(job, begin, wave, m)
    ensures var end := WaveEnd(begin, wave, |job.srcs|);
            Roomy(job, begin, end, wave, m) && StagingFits(job, end, wave, m)
  {
  }

  lemma {:induction false} WavesFitMore(job: Job, begin: nat, wave: nat, src: nat, dst: nat, src': nat, dst': nat)
    requires JobOk(job) && wave >= 1 && WavesFit(job, begin, wave, src, dst)
    requires src <= src' && (job.hostOut ==> dst <= dst')
    ensures WavesFit(job, begin, wave, src', dst')
    decreases |job.srcs| - begin
  {
    if begin < |job.srcs| {
      WavesFitMore(job, WaveEnd(begin, wave, |job.srcs|), wave, src, dst, src', dst');
    }
  }

  lemma UntouchedTails(job: Job)
    requires JobOk(job)
    ensures forall k :: 0 <= k < |job.srcs| ==> TailKept(job, k, job.dsts[k])
  {
  }

  lemma SafeSays(job: Job, m: Memory)
    requires JobOk(job) && Safe(job, m)
    ensures |m.dsts| == |job.srcs| <= |m.pRes|
    ensures forall k :: 0 <= k < |job.srcs| ==> TailKept(job, k, m.dsts[k])
    ensures forall k :: 0 <= k < |job.srcs| ==> m.pRes[k] == Stamp || m.pRes[k] == Reported(job, k)
  {
  }

  lemma ThroughSays(job: Job, k: nat, m: Memory)
    requires JobOk(job) && k <= |job.srcs| && Through(job, k, m)
    ensures m.dsts == SequentialBuffers(job, k) && |job.srcs| <= |m.pRes|
    ensures forall i :: 0 <= i < |job.srcs| ==> m.pRes[i] == if i < k then Reported(job, i) else Stamp
    ensures k == |job.srcs| ==> m.pRes[..k] == SequentialResults(job)
  {
  }

  lemma AnsweredInPlace(job: Job, begin: nat, end: nat, m: Memory)
    requires JobOk(job) && !job.hostOut && begin <= end <= |job.srcs| && Answered(job, begin, end, m)
    ensures Through(job, end, m)
  {
  }

  /** Grow-only: the buffer, or a new one holding whatever it happens to hold. */
  method Ensure<T>(s: seq<T>, n: nat, x: T) returns (r: seq<T>)
    ensures |r| >= n && (|s| >= n ==> r == s)
  {
    if n <= |s| {
      return s;
    }
    var witness' := Repeat(x, n);
    r :| |r| == n;
  }

  // ----- decoding one chunk after another -----

  function SequentialResults(job: Job): (r: seq<Record>)
    requires JobOk(job)
    ensures |r| == |job.srcs| && forall k :: 0 <= k < |r| ==> r[k] == Reported(job, k)
  {
    seq(|job.srcs|, k requires 0 <= k < |job.srcs| && |job.caps| == |job.srcs| => Reported(job, k))
  }

  /** The caller's buffers once the first `n` chunks have been decoded into them. */
  function SequentialBuffers(job: Job, n: nat): (b: seq<seq<byte>>)
    requires JobOk(job) && n <= |job.srcs|
    ensures |b| == |job.srcs| && forall k :: 0 <= k < |b| ==> b[k] == if k < n then Expected(job, k) else job.dsts[k]
  {
    seq(|job.srcs|, k requires 0 <= k < |job.srcs| && |job.caps| == |job.srcs| == |job.dsts| => if k < n then Expected(job, k) else job.dsts[k])
  }

  /** The first status that is not OK, in chunk order. */
  function FirstBad(results: seq<Record>): Status {
    if results == [] then Okay
    else if results[0].status != Okay then results[0].status
    else FirstBad(results[1..])
  }

  /** OK when every record is; otherwise the status of the lowest record that is
      not OK. */
  ghost predicate SpeaksFor(status: Status, results: seq<Record>) {
    && (status != Okay <==> exists k :: 0 <= k < |results| && results[k].status != Okay)
    && (status != Okay ==> exists k :: 0 <= k < |results| && FirstAt(results, k) && results[k].status == status)
  }

  ghost predicate FirstAt(results: seq<Record>, k: nat)
    requires k < |results|
  {
    results[k].status != Okay && forall j :: 0 <= j < k ==> results[j].status == Okay
  }

  method Aggregate(results: seq<Record>) returns (status: Status)
    ensures status == FirstBad(results) && SpeaksFor(status, results)
  {
    for i := 0 to |results|
      invariant FirstBad(results) == FirstBad(results[i..])
      invariant forall j :: 0 <= j < i ==> results[j].status == Okay
    {
      if results[i].status != Okay {
        assert FirstAt(results, i);
        return results[i].status;
      }
      assert results[i..][1..] == results[i + 1..];
    }
    status := Okay;
  }

  lemma {:induction false} SpeaksBehind(results: seq<Record>, i: nat)
    requires i <= |results| && forall j :: 0 <= j < i ==> results[j].status == Okay
    ensures SpeaksFor(FirstBad(results[i..]), results)
    decreases |results| - i
  {
    if i < |results| {
      if results[i].status == Okay {
        assert results[i..][1..] == results[i + 1..];
        SpeaksBehind(results, i + 1);
      } else {
        assert FirstAt(results, i);
      }
    }
  }

  /** The aggregate speaks for the records, and nothing else does. */
  lemma FirstBadSpeaks(results: seq<Record>)
    ensures SpeaksFor(FirstBad(results), results)
    ensures forall status :: SpeaksFor(status, results) ==> status == FirstBad(results)
  {
    SpeaksBehind(results, 0);
    assert results[0..] == results;
  }

  /** A caller checking only the returned status still fails closed. */
  lemma OkMeansEveryChunk(results: seq<Record>)
    ensures FirstBad(results) == Okay <==> forall k :: 0 <= k < |results| ==> results[k].status == Okay
  {
    FirstBadSpeaks(results);
  }

  /** Part of an answered wave has been copied out. */
  ghost predicate Answering(job: Job, begin: nat, k: nat, end: nat, m: Memory)
    requires JobOk(job) && begin <= k <= end <= |job.srcs|
  {
    && Sized(job, m)
    && (forall i :: 0 <= i < |job.srcs| ==> m.pRes[i] == if i < end then Reported(job, i) else Stamp)
    && (forall i :: 0 <= i < |job.srcs| ==> m.dsts[i] == if i < k then Expected(job, i) else job.dsts[i])
    && (forall i :: begin <= i < end ==> InSlot(job, begin, i, m.dDst))
    && CapSum(job, begin, end) <= |m.dDst|
  }

  lemma JunkKeepsTail(job: Job, k: nat, b: seq<byte>, junk: seq<byte>)
    requires JobOk(job) && k < |job.srcs| && TailKept(job, k, b) && |junk| == |Delivered(job, k)|
    ensures TailKept(job, k, Overlay(b, 0, junk))
  {
  }

  /** The claimed bytes of a chunk, as they lie in its slot. */
  lemma DeliveredFromSlot(job: Job, begin: nat, k: nat, end: nat, staging: seq<byte>)
    requires JobOk(job) && job.hostOut && begin <= k < end <= |job.srcs| && CapSum(job, begin, end) <= |staging|
    requires InSlot(job, begin, k, staging) && Said(job, k).claim <= job.caps[k]
    ensures Slice(staging, CapSum(job, begin, k), Said(job, k).claim) == Delivered(job, k)
    ensures |Delivered(job, k)| == Said(job, k).claim
    ensures Said(job, k).claim == 0 ==> Expected(job, k) == job.dsts[k]
    ensures TailKept(job, k, Expected(job, k))
  {
    var o, off := Said(job, k), CapSum(job, begin, k);
    SlotEnds(job, begin, k, end);
    assert Slice(staging, off, o.claim) == Slice(staging, off, |o.bytes|)[..o.claim];
  }

  lemma LaunchIsQuiet(begin: nat, end: nat, order: seq<nat>)
    requires begin <= end && Order(order, begin, end)
    ensures Quiet(Kernel(begin, order)) && Quiet(Results(begin, end - begin))
  {
  }

  lemma SomeOrder(begin: nat, end: nat)
    requires begin <= end
    ensures exists order: seq<nat> :: Order(order, begin, end)
  {
    var order: seq<nat> := seq(end - begin, i requires 0 <= i => begin + i);
    forall k | begin <= k < end ensures k in order {
      assert order[k - begin] == k;
    }
    assert Order(order, begin, end);
  }

  lemma NothingToCopy(job: Job, m: Memory)
    ensures Run(job, m, SrcCopy(0)) == m
  {
    assert SrcCopy(0) == [];
  }

  lemma ReuseIsNothing(job: Job, m: Memory)
    requires JobOk(job)
    ensures Sound(job, m, [Reused]) && Run(job, m, [Reused]) == m
  {
    RunOneMore(job, m, [], Reused);
    assert [] + [Reused] == [Reused];
  }

  lemma QuietWhenEmpty()
    ensures Quiet([]) && Gated([])
  {
  }
}
