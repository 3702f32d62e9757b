/** The sequential team and the dynamic block's code-length rounds (the second
    half of src/gdeflate_tables.h). */
module Team {
  import opened Bits
  import opened CanonicalCode
  import opened Schedule
  import opened HuffTable
  import opened PageSpec

  const LITLEN_ROOT_BITS: nat := 10
  const DIST_ROOT_BITS: nat := 7
  const NO_LANE: nat := NUM_STREAMS

  /** One lane's outstanding match. */
  datatype DeferredCopy = DeferredCopy(outPos: nat, length: nat, pending: bool)

  // ----- what the table walk answers, in terms of the code -----

  lemma ResolvedIsSymbol(lens: seq<nat>, cap: nat, m: nat, kind: Kind, bits: seq<bool>, sym: nat, width: nat, why: Reject)
    requires m >= 1 && Verdict(lens, cap, m) == Ok(kind) && |bits| >= m
    requires Resolved(lens, m, kind, bits, sym, width, why)
    ensures IsCode(lens, m)
    ensures Symbol(lens, m, bits) == if why == NoReject then Ok(Reading(sym, width)) else Refused(why)
  {
    ResolvedWhenLong(lens, m, kind, bits, sym, width, why);
    match kind
    case CompleteTable =>
      CompleteIsUniquelyDecodable(lens, bits, m);
    case SingleTable =>
      CompleteIsNotSingle(lens, sym, m);
    case EmptyTable =>
  }

  lemma CompleteIsNotSingle(lens: seq<nat>, sym: nat, m: nat)
    requires SingleCode(lens, sym) && m >= 1
    ensures !Complete(lens, m)
  {
    SingleKraft(lens, sym, m);
  }

  lemma ConsumeTwice(st: Streams, l: nat, a: nat, b: nat)
    requires l < |st.lanes| && a + b <= |st.lanes[l]|
    ensures Consume(Consume(st, l, a), l, b) == Consume(st, l, a + b)
    ensures Field(Consume(st, l, a), l, b) == Low(st.lanes[l][a..a + b])
  {
    assert st.lanes[l][a..][b..] == st.lanes[l][a + b..];
    assert st.lanes[l][a..][..b] == st.lanes[l][a..a + b];
    assert Consume(Consume(st, l, a), l, b).lanes == Consume(st, l, a + b).lanes;
  }

  /** Every lane but the first is at the watermark. */
  predicate LanesPrimed(page: seq<byte>, st: Streams) {
    && |st.lanes| == NUM_STREAMS && st.cursor <= WordCount(page)
    && forall l :: 1 <= l < NUM_STREAMS ==> |st.lanes[l]| >= LOW_WATERMARK_BITS
  }

  lemma EnsuredIsReady(page: seq<byte>, st: Streams)
    requires LanesPrimed(page, st) && Refill(page, st, 0).Ok?
    ensures Ready(Refill(page, st, 0).value) && Refill(page, st, 0).value.cursor <= WordCount(page)
  {
  }

  /** The vectors as read from a lane 0 that may still be due a word. */
  ghost function EnsuredVectors(page: seq<byte>, st: Streams): (r: Result<Vectors>)
    requires LanesPrimed(page, st)
    ensures r.Ok? ==> |r.value.litlen| <= NUM_LITLEN_SYMS && |r.value.dist| <= NUM_DIST_SYMS
  {
    var ensured := Refill(page, st, 0);
    if ensured.Refused? then Refused(ensured.why)
    else
      EnsuredIsReady(page, st);
      ReadVectors(page, ensured.value)
  }

  /** The dynamic block's codes, the same way. */
  ghost function EnsuredDynamic(page: seq<byte>, st: Streams): (r: Result<Dynamic>)
    requires LanesPrimed(page, st)
  {
    var v := EnsuredVectors(page, st);
    if v.Refused? then Refused(v.why) else BuildCodes(v.value)
  }

  lemma ReadyIsEnsured(page: seq<byte>, st: Streams)
    requires Ready(st) && st.cursor <= WordCount(page)
    ensures EnsuredDynamic(page, st) == ReadDynamic(page, st)
  {
    hide ReadVectors, BuildCodes;
    assert Refill(page, st, 0) == Ok(st);
  }

  lemma AccumulatorSizes()
    ensures NUM_LITLEN_SYMS * Pow2(MAX_CODE_LEN - 1) <= 0xFFFF_FFFF
    ensures NUM_DIST_SYMS * Pow2(MAX_CODE_LEN - 1) <= 0xFFFF_FFFF
    ensures NUM_PRECODE_SYMS * Pow2(MAX_PRECODE_LEN - 1) <= 0xFFFF_FFFF
  {
    assert Pow2(14) == 0x4000 && Pow2(6) == 64;
  }

  /** Three pops read what the header says in one. */
  lemma CountsByPops(st: Streams)
    requires Ready(st)
    ensures var st1 := Consume(st, 0, 5);
            var st2 := Consume(st1, 0, 5);
            var st3 := Consume(st2, 0, 4);
            ReadCounts(st) == Counts(Field(st, 0, 5) + 257, Field(st1, 0, 5) + 1, Field(st2, 0, 4) + 4, st3)
  {
    ConsumeTwice(st, 0, 5, 5);
    ConsumeTwice(st, 0, 10, 4);
    assert st.lanes[0][..5] == st.lanes[0][0..5];
  }

  lemma PrecodeStep(page: seq<byte>, st: Streams, lens: seq<nat>, i: nat, n: nat)
    requires Ready(st) && st.cursor <= WordCount(page) && i < n <= NUM_PRECODE_SYMS
    requires |lens| == NUM_PRECODE_SYMS && InRange(lens, MAX_PRECODE_LEN)
    ensures var after := Refill(page, Consume(st, i, 3), i);
            var lens' := lens[PrecodeOrder(i) := Field(st, i, 3)];
            && Field(st, i, 3) <= MAX_PRECODE_LEN && InRange(lens', MAX_PRECODE_LEN)
            && (after.Ok? ==> Ready(after.value) && after.value.cursor <= WordCount(page))
            && PrecodeLengths(page, st, lens, i, n)
            == if after.Refused? then Refused(after.why) else PrecodeLengths(page, after.value, lens', i + 1, n)
  {
    ThreeBits(st.lanes[i][..3]);
    ConsumeReads(st, i, 3);
    if Refill(page, Consume(st, i, 3), i).Ok? {
      ReadThenRefill(page, st, Consume(st, i, 3), i);
    }
  }

  lemma PrecodeEnd(page: seq<byte>, st: Streams, lens: seq<nat>, n: nat)
    requires Ready(st) && st.cursor <= WordCount(page) && n <= NUM_PRECODE_SYMS
    requires |lens| == NUM_PRECODE_SYMS && InRange(lens, MAX_PRECODE_LEN)
    ensures PrecodeLengths(page, st, lens, n, n) == Ok(Lengths(st, lens))
  {
  }

  // ----- the code-length rounds, lane by lane -----

  /** Refill lane 0 if it is due a word; no rotation. */
  method EnsureLane0(s: GDeflateSchedule, page: seq<byte>)
    requires s.Valid(page) && !s.failed
    modifies s, s.bitbuf, s.bitsleft
    ensures s.Valid(page) && s.idx == 0
    ensures Refill(page, old(s.Abs()), 0) == if s.failed then Refused(s.reject) else Ok(s.Abs())
  {
    s.Select(page, 0);
    s.Ensure(page);
  }

  /** HLIT, HDIST and HCLEN, three pops on lane 0. */
  method PopCounts(s: GDeflateSchedule, page: seq<byte>) returns (litlen: nat, dist: nat, precode: nat)
    requires s.Valid(page) && !s.failed && Ready(s.Abs())
    modifies s, s.bitbuf, s.bitsleft
    ensures s.Valid(page) && !s.failed
    ensures ReadCounts(old(s.Abs())) == Counts(litlen, dist, precode, s.Abs())
  {
    hide ReadCounts, Low, BitsOf, LaneBits, LanesTidy;
    s.Select(page, 0);
    CountsByPops(s.Abs());
    var a := s.Pop(page, 5);
    var b := s.Pop(page, 5);
    var c := s.Pop(page, 4);
    litlen, dist, precode := a + 257, b + 1, c + 4;
  }

  /** One explicit precode length, on its own lane. */
  method PrecodeLane(s: GDeflateSchedule, page: seq<byte>, precodeLens: array<nat>, l: nat, ghost n: nat)
    requires s.Valid(page) && !s.failed && Ready(s.Abs()) && l < n <= NUM_PRECODE_SYMS
    requires precodeLens != s.bitbuf && precodeLens != s.bitsleft && precodeLens.Length == NUM_PRECODE_SYMS
    requires InRange(precodeLens[..], MAX_PRECODE_LEN)
    modifies s, s.bitbuf, s.bitsleft, precodeLens
    ensures s.Valid(page)
    ensures s.failed ==> PrecodeLengths(page, old(s.Abs()), old(precodeLens[..]), l, n) == Refused(s.reject)
    ensures !s.failed ==> Ready(s.Abs()) && InRange(precodeLens[..], MAX_PRECODE_LEN)
    ensures !s.failed ==>
              PrecodeLengths(page, old(s.Abs()), old(precodeLens[..]), l, n) == PrecodeLengths(page, s.Abs(), precodeLens[..], l + 1, n)
  {
    hide PrecodeLengths, Low, BitsOf, LaneBits, LanesTidy, Word, PrecodeOrder, InRange;
    ghost var was := precodeLens[..];
    PrecodeStep(page, s.Abs(), was, l, n);
    s.Select(page, l);
    var len := s.Pop(page, 3);
    precodeLens[PrecodeOrder(l)] := len;
    assert precodeLens[..] == was[PrecodeOrder(l) := len];
    s.Advance(page);
  }

  /** Lane i reads the i-th explicit length and takes the word it is due. */
  method PrecodeRound(s: GDeflateSchedule, page: seq<byte>, precodeLens: array<nat>, explicitCount: nat)
    requires s.Valid(page) && !s.failed && Ready(s.Abs()) && explicitCount <= NUM_PRECODE_SYMS
    requires precodeLens != s.bitbuf && precodeLens != s.bitsleft && precodeLens.Length == NUM_PRECODE_SYMS
    requires InRange(precodeLens[..], MAX_PRECODE_LEN)
    modifies s, s.bitbuf, s.bitsleft, precodeLens
    ensures s.Valid(page)
    ensures PrecodeLengths(page, old(s.Abs()), old(precodeLens[..]), 0, explicitCount)
         == if s.failed then Refused(s.reject) else Ok(Lengths(s.Abs(), precodeLens[..]))
  {
    hide PrecodeLengths, Low, BitsOf, LaneBits, LanesTidy, InRange;
    for l := 0 to explicitCount
      invariant s.Valid(page) && !s.failed && Ready(s.Abs())
      invariant InRange(precodeLens[..], MAX_PRECODE_LEN)
      invariant PrecodeLengths(page, old(s.Abs()), old(precodeLens[..]), 0, explicitCount)
             == PrecodeLengths(page, s.Abs(), precodeLens[..], l, explicitCount)
    {
      PrecodeLane(s, page, precodeLens, l, explicitCount);
      if s.failed {
        return;
      }
    }
    PrecodeEnd(page, s.Abs(), precodeLens[..], explicitCount);
  }

  /** What a lane resolved for the code-length round ahead of it. */
  datatype RunRead = RunRead(read: LaneRead, extraWhy: Reject, count: nat, value: nat, repeatPrev: bool)

  /** The resolved fields are the run the lane's bits spell. */
  ghost predicate SpellsRun(rr: RunRead, want: Result<Reading<Run>>) {
    match want
    case Refused(why) => rr.read.why == why && !rr.repeatPrev && rr.count == 0
    case Ok(run) =>
      && rr.read == LaneRead(run.width, NoReject) && rr.extraWhy == NoReject && rr.count == run.what.Length()
      && match run.what
         case Explicit(len) => rr.value == len && !rr.repeatPrev
         case RepeatPrevious(_) => rr.repeatPrev
         case Zeros(_) => rr.value == 0 && !rr.repeatPrev
  }

  method ResolveRun(t: GDeflateHuffTable, ghost pre: seq<nat>, buf: nat, left: nat) returns (rr: RunRead)
    requires t.Built(pre) && t.cap == NUM_PRECODE_SYMS && t.maxLen == MAX_PRECODE_LEN && PrecodeOk(pre)
    requires buf < Pow2(left) && LOW_WATERMARK_BITS <= left <= MAX_LANE_BITS
    ensures SpellsRun(rr, ReadRun(pre, BitsOf(buf, left))) && rr.read.consumed <= left
  {
    hide Low, BitsOf, Pow2, Resolved, Symbol, Verdict, IsCode, Kraft;
    var presym, r := t.ResolveSymbol(pre, buf, left, NoRead);
    assert BitsOf(buf, left)[0..] == BitsOf(buf, left);
    ResolvedIsSymbol(pre, NUM_PRECODE_SYMS, MAX_PRECODE_LEN, t.kind, BitsOf(buf, left), presym, r.consumed, r.why);
    if r.why != NoReject {
      return RunRead(r, NoReject, 0, 0, false);
    }
    if presym < REPEAT_PREV {
      return RunRead(r, NoReject, 1, presym, false);
    }
    var extra, base, width;
    if presym == REPEAT_PREV {
      base, width := 3, 2;
    } else if presym == REPEAT_ZERO_SHORT {
      base, width := 3, 3;
    } else {
      base, width := 11, 7;
    }
    extra, r := ReadAhead(buf, left, r, width);
    return RunRead(r, r.why, if r.why == NoReject then base + extra else 0, 0, presym == REPEAT_PREV);
  }

  predicate RunFits(run: Run, filled: nat, total: nat) {
    !(run.RepeatPrevious? && filled == 0) && filled + run.Length() <= total
  }

  lemma ExpandStep(page: seq<byte>, pre: seq<nat>, st: Streams, acc: seq<nat>, total: nat, l: nat)
    requires PrecodeOk(pre) && Ready(st) && st.cursor <= WordCount(page) && l < NUM_STREAMS
    requires |acc| < total && InRange(acc, MAX_CODE_LEN)
    ensures var s := ReadRun(pre, st.lanes[l]);
            && (s.Refused? ==> Expand(page, pre, st, acc, total, l) == Refused(s.why))
            && (s.Ok? && !RunFits(s.value.what, |acc|, total) ==>
                  Expand(page, pre, st, acc, total, l)
                  == Refused(if s.value.what.RepeatPrevious? && acc == [] then RepeatNothingBefore else RepeatRunPastAlphabet))
    ensures var s := ReadRun(pre, st.lanes[l]);
            s.Ok? && RunFits(s.value.what, |acc|, total) ==>
              var after := Refill(page, Consume(st, l, s.value.width), l);
              var acc' := Extend(acc, s.value.what);
              && (after.Ok? ==> Ready(after.value) && after.value.cursor <= WordCount(page))
              && InRange(acc', MAX_CODE_LEN) && |acc'| == |acc| + s.value.what.Length()
              && Expand(page, pre, st, acc, total, l)
                 == if after.Refused? then Refused(after.why) else Expand(page, pre, after.value, acc', total, NextLane(l))
  {
    var s := ReadRun(pre, st.lanes[l]);
    if s.Ok? && RunFits(s.value.what, |acc|, total) {
      ConsumeReads(st, l, s.value.width);
      if Refill(page, Consume(st, l, s.value.width), l).Ok? {
        ReadThenRefill(page, st, Consume(st, l, s.value.width), l);
      }
    }
  }

  /** The serial step of one lane's run: repeat the previous length, or write
      the run's own. */
  method WriteRun(lens: array<nat>, start: nat, rr: RunRead, ghost run: Run)
    requires start + rr.count <= lens.Length && (rr.repeatPrev ==> start > 0)
    requires rr.count == run.Length() && (run.Explicit? ==> rr.value == run.len && !rr.repeatPrev)
    requires (run.RepeatPrevious? ==> rr.repeatPrev) && (run.Zeros? ==> rr.value == 0 && !rr.repeatPrev)
    modifies lens
    ensures lens[..start + rr.count] == Extend(old(lens[..start]), run)
  {
    var value := if rr.repeatPrev then lens[start - 1] else rr.value;
    for n := 0 to rr.count
      invariant lens[..start] == old(lens[..start])
      invariant forall i :: start <= i < start + n ==> lens[i] == value
    {
      lens[start + n] := value;
    }
    assert lens[..start + rr.count] == lens[..start] + Repeat(value, rr.count);
  }

  /** A run is committed exactly when it was read whole, has something to repeat if
      it repeats, and fits what is left; a run that is not consumes nothing. A
      shortage of the codeword is named before a missing entry, and that before a
      shortage of the extra bits. */
  method CommitRun(s: GDeflateSchedule, page: seq<byte>, rr: RunRead, start: nat, total: nat)
    requires s.Valid(page) && !s.failed && start < total && rr.read.consumed <= |s.Abs().lanes[s.idx]|
    modifies s, s.bitbuf, s.bitsleft
    ensures s.Valid(page) && s.idx == old(s.idx)
    ensures !s.failed <==>
              && rr.read.why == NoReject && rr.extraWhy == NoReject
              && !(rr.repeatPrev && start == 0) && start + rr.count <= total
    ensures s.Abs() == if s.failed then old(s.Abs()) else Consume(old(s.Abs()), s.idx, rr.read.consumed)
    ensures rr.read.why != NoReject ==> s.reject == rr.read.why
    ensures s.reject == RepeatNothingBefore && rr.extraWhy != RepeatNothingBefore ==> rr.read.why == RepeatNothingBefore || (rr.repeatPrev && start == 0)
    ensures rr.read.why == NoReject && rr.repeatPrev && start == 0 ==> s.reject == RepeatNothingBefore
    ensures rr.read.why == NoReject && rr.extraWhy == NoReject && !(rr.repeatPrev && start == 0) && s.failed ==>
              s.reject == RepeatRunPastAlphabet
    ensures rr.read.why == NoReject && rr.extraWhy != NoReject && !(rr.repeatPrev && start == 0) ==> s.reject == rr.extraWhy
  {
    if rr.read.why != NoReject {
      s.Refuse(rr.read.why);
    } else if rr.repeatPrev && start == 0 {
      s.Refuse(RepeatNothingBefore);
    } else if rr.extraWhy != NoReject {
      s.Refuse(rr.extraWhy);
    } else if rr.count > total - start {
      s.Refuse(RepeatRunPastAlphabet);
    } else {
      s.Remove(page, rr.read.consumed);
    }
  }

  /** One lane of an expansion round, and the word it is due if it stepped. */
  method ExpandLane(s: GDeflateSchedule, t: GDeflateHuffTable, page: seq<byte>, lens: array<nat>,
                    total: nat, filled: nat, l: nat, ghost pre: seq<nat>)
    returns (filled': nat)
    requires s.Valid(page) && !s.failed && Ready(s.Abs()) && l < NUM_STREAMS && total <= lens.Length
    requires t.Built(pre) && t.cap == NUM_PRECODE_SYMS && t.maxLen == MAX_PRECODE_LEN && PrecodeOk(pre)
    requires lens != s.bitbuf && lens != s.bitsleft && lens !in t.Repr() && s.Repr() !! t.Repr()
    requires filled < total ==> InRange(lens[..filled], MAX_CODE_LEN)
    modifies s, s.bitbuf, s.bitsleft, lens
    ensures s.Valid(page) && t.Built(pre)
    ensures filled >= total ==> !s.failed && s.Abs() == old(s.Abs()) && lens[..] == old(lens[..]) && filled' >= total
    ensures filled < total && s.failed ==> Expand(page, pre, old(s.Abs()), old(lens[..filled]), total, l) == Refused(s.reject)
    ensures filled < total && !s.failed ==>
              && Ready(s.Abs()) && filled < filled' <= total && InRange(lens[..filled'], MAX_CODE_LEN)
              && Expand(page, pre, old(s.Abs()), old(lens[..filled]), total, l)
                 == Expand(page, pre, s.Abs(), lens[..filled'], total, NextLane(l))
  {
    hide Expand, ReadRun, Low, BitsOf, LanesTidy, LaneBits, Word, InRange, Verdict, IsCode, Counted, Indexed, Ordered, Coded, Rooted, Pow2, Total;
    s.Select(page, l);
    s.HeldAt(page, l);
    var rr := ResolveRun(t, pre, s.bitbuf[l], s.bitsleft[l]);
    filled' := filled + rr.count;
    if filled < total {
      TakeRun(s, page, lens, total, filled, l, rr, pre);
    }
  }

  /** A lane's run is committed and written, and its word taken. */
  method TakeRun(s: GDeflateSchedule, page: seq<byte>, lens: array<nat>, total: nat, start: nat, l: nat, rr: RunRead, ghost pre: seq<nat>)
    requires s.Valid(page) && !s.failed && s.idx == l < NUM_STREAMS && Ready(s.Abs())
    requires start < total <= lens.Length && PrecodeOk(pre) && InRange(lens[..start], MAX_CODE_LEN)
    requires SpellsRun(rr, ReadRun(pre, s.Abs().lanes[l])) && rr.read.consumed <= |s.Abs().lanes[l]|
    requires lens != s.bitbuf && lens != s.bitsleft
    modifies s, s.bitbuf, s.bitsleft, lens
    ensures s.Valid(page)
    ensures s.failed ==> Expand(page, pre, old(s.Abs()), old(lens[..start]), total, l) == Refused(s.reject)
    ensures !s.failed ==>
              && Ready(s.Abs()) && 1 <= rr.count && start + rr.count <= total && InRange(lens[..start + rr.count], MAX_CODE_LEN)
              && Expand(page, pre, old(s.Abs()), old(lens[..start]), total, l)
                 == Expand(page, pre, s.Abs(), lens[..start + rr.count], total, NextLane(l))
  {
    hide Expand, ReadRun, Low, BitsOf, LanesTidy, LaneBits, Word, InRange, Verdict, IsCode, Counted, Indexed, Ordered, Coded, Rooted, Pow2, Total;
    ghost var acc, want := lens[..start], ReadRun(pre, s.Abs().lanes[l]);
    ExpandStep(page, pre, s.Abs(), acc, total, l);
    CommitRun(s, page, rr, start, total);
    if !s.failed {
      WriteRun(lens, start, rr, want.value.what);
      s.Advance(page);
    }
  }

  /** The expansion rounds: 32 lanes at a time until the vector is full. */
  method ExpandRounds(s: GDeflateSchedule, t: GDeflateHuffTable, page: seq<byte>, lens: array<nat>, total: nat, ghost pre: seq<nat>)
    requires s.Valid(page) && !s.failed && Ready(s.Abs()) && total <= lens.Length
    requires t.Built(pre) && t.cap == NUM_PRECODE_SYMS && t.maxLen == MAX_PRECODE_LEN && PrecodeOk(pre)
    requires lens != s.bitbuf && lens != s.bitsleft && lens !in t.Repr() && s.Repr() !! t.Repr()
    modifies s, s.bitbuf, s.bitsleft, lens
    ensures s.Valid(page)
    ensures Expand(page, pre, old(s.Abs()), [], total, 0)
         == if s.failed then Refused(s.reject) else Ok(Lengths(s.Abs(), lens[..total]))
  {
    hide Expand, ReadRun, Low, BitsOf, LanesTidy, LaneBits, Word, Verdict, IsCode, Counted, Indexed, Ordered, Coded, Rooted, Pow2;
    ghost var goal := Expand(page, pre, s.Abs(), [], total, 0);
    var filled, round := 0, 0;
    assert lens[..][..0] == [];
    FullExpansion(page, pre, s.Abs(), [], 0);
    while round <= total && filled < total
      invariant s.Valid(page) && !s.failed && Ready(s.Abs()) && t.Built(pre)
      invariant round <= filled && (filled > total ==> round <= total)
      invariant Pursues(page, pre, s.Abs(), lens[..], filled, total, 0, goal)
      decreases total + 1 - round
    {
      ghost var before := filled;
      for l := 0 to NUM_STREAMS
        invariant s.Valid(page) && !s.failed && Ready(s.Abs()) && t.Built(pre)
        invariant filled >= before && (l > 0 ==> filled > before)
        invariant Pursues(page, pre, s.Abs(), lens[..], filled, total, if l == NUM_STREAMS then 0 else l, goal)
      {
        ghost var full := filled >= total;
        assert !full ==> lens[..][..filled] == lens[..filled];
        filled := ExpandLane(s, t, page, lens, total, filled, l, pre);
        if s.failed {
          return;
        }
        if !full {
          assert lens[..][..filled] == lens[..filled];
          FullExpansion(page, pre, s.Abs(), lens[..filled], NextLane(l));
        }
      }
      round := round + 1;
    }
  }

  /** Either the rest of the expansion is still the goal, or the vector is full
      and the goal is what has been reached. */
  ghost predicate Pursues(page: seq<byte>, pre: seq<nat>, st: Streams, lens: seq<nat>, filled: nat, total: nat, l: nat, goal: Result<Lengths>)
    requires PrecodeOk(pre) && Ready(st) && st.cursor <= WordCount(page) && l < NUM_STREAMS && total <= |lens|
  {
    if filled >= total then goal == Ok(Lengths(st, lens[..total]))
    else InRange(lens[..filled], MAX_CODE_LEN) && goal == Expand(page, pre, st, lens[..filled], total, l)
  }

  lemma FullExpansion(page: seq<byte>, pre: seq<nat>, st: Streams, acc: seq<nat>, l: nat)
    requires PrecodeOk(pre) && Ready(st) && st.cursor <= WordCount(page) && l < NUM_STREAMS && InRange(acc, MAX_CODE_LEN)
    ensures Expand(page, pre, st, acc, |acc|, l) == Ok(Lengths(st, acc))
  {
  }

  /** One expansion, as the two vectors it covers. */
  ghost function Halved(all: Result<Lengths>, c: Counts): Result<Vectors>
    requires all.Ok? ==> |all.value.lens| >= c.litlen
  {
    if all.Refused? then Refused(all.why)
    else Ok(Vectors(all.value.st, all.value.lens[..c.litlen], all.value.lens[c.litlen..]))
  }

  /** The stages of the two vectors, one after another. */
  lemma PrecodeUnfold(page: seq<byte>, st: Streams, c: Counts)
    requires Ready(st) && st.cursor <= WordCount(page) && c.precode <= NUM_PRECODE_SYMS
    ensures var read := PrecodeLengths(page, st, Repeat(0, NUM_PRECODE_SYMS), 0, c.precode);
            var r := ReadWithPrecode(page, st, c);
            if read.Refused? then r == Refused(read.why)
            else
              var v := Verdict(read.value.lens, NUM_PRECODE_SYMS, MAX_PRECODE_LEN);
              if v.Refused? then r == Refused(v.why)
              else
                && PrecodeOk(read.value.lens)
                && r == Halved(Expand(page, read.value.lens, read.value.st, [], c.litlen + c.dist, 0), c)
  {
    hide Verdict, PrecodeLengths, Expand, IsCode;
    var read := PrecodeLengths(page, st, Repeat(0, NUM_PRECODE_SYMS), 0, c.precode);
    if read.Ok? && Verdict(read.value.lens, NUM_PRECODE_SYMS, MAX_PRECODE_LEN).Ok? {
      VerdictIsCode(read.value.lens, NUM_PRECODE_SYMS, MAX_PRECODE_LEN);
    }
  }

  class GDeflateHostTeam {
    const s: GDeflateSchedule
    const litlen: GDeflateHuffTable
    const dist: GDeflateHuffTable
    const precode: GDeflateHuffTable
    const lens: array<nat>
    const precodeLens: array<nat>
    const copies: array<DeferredCopy>
    var numLitlen: nat
    var numDist: nat

    ghost function Own(): set<object> { {this, lens, precodeLens, copies} }

    ghost function Repr(): set<object> {
      Own() + s.Repr() + litlen.Repr() + dist.Repr() + precode.Repr()
    }

    /** The sizes the header fixes at compile time, and nothing shared. */
    ghost predicate Shaped() {
      && s.Shaped() && litlen.Shaped() && dist.Shaped() && precode.Shaped()
      && litlen.cap == NUM_LITLEN_SYMS && litlen.rootBits == LITLEN_ROOT_BITS && litlen.maxLen == MAX_CODE_LEN
      && dist.cap == NUM_DIST_SYMS && dist.rootBits == DIST_ROOT_BITS && dist.maxLen == MAX_CODE_LEN
      && precode.cap == NUM_PRECODE_SYMS && precode.rootBits == precode.maxLen == MAX_PRECODE_LEN
      && lens.Length == NUM_LITLEN_SYMS + NUM_DIST_SYMS && precodeLens.Length == NUM_PRECODE_SYMS && lens != precodeLens
      && copies.Length == NUM_STREAMS
      && Own() !! s.Repr() && Own() !! litlen.Repr() && Own() !! dist.Repr() && Own() !! precode.Repr()
      && s.Repr() !! litlen.Repr() && s.Repr() !! dist.Repr() && s.Repr() !! precode.Repr()
      && litlen.Repr() !! dist.Repr() && litlen.Repr() !! precode.Repr() && dist.Repr() !! precode.Repr()
    }

    ghost predicate Valid(page: seq<byte>)
      reads s, s.bitbuf, s.bitsleft
    {
      Shaped() && s.Valid(page)
    }

    static method NewTables() returns (litlen: GDeflateHuffTable, dist: GDeflateHuffTable, precode: GDeflateHuffTable)
      ensures fresh(litlen.Repr()) && fresh(dist.Repr()) && fresh(precode.Repr())
      ensures litlen.Shaped() && dist.Shaped() && precode.Shaped()
      ensures litlen.cap == NUM_LITLEN_SYMS && litlen.rootBits == LITLEN_ROOT_BITS && litlen.maxLen == MAX_CODE_LEN
      ensures dist.cap == NUM_DIST_SYMS && dist.rootBits == DIST_ROOT_BITS && dist.maxLen == MAX_CODE_LEN
      ensures precode.cap == NUM_PRECODE_SYMS && precode.rootBits == precode.maxLen == MAX_PRECODE_LEN
      ensures litlen.Repr() !! dist.Repr() && litlen.Repr() !! precode.Repr() && dist.Repr() !! precode.Repr()
    {
      hide Pow2, GDeflateHuffTable.Shaped;
      AccumulatorSizes();
      litlen := new GDeflateHuffTable(NUM_LITLEN_SYMS, LITLEN_ROOT_BITS, MAX_CODE_LEN);
      dist := new GDeflateHuffTable(NUM_DIST_SYMS, DIST_ROOT_BITS, MAX_CODE_LEN);
      precode := new GDeflateHuffTable(NUM_PRECODE_SYMS, MAX_PRECODE_LEN, MAX_PRECODE_LEN);
    }

    constructor ()
      ensures Shaped() && fresh(Repr())
    {
      hide Pow2, GDeflateSchedule.Shaped, GDeflateHuffTable.Shaped;
      s := new GDeflateSchedule();
      var literals, distances, lengths := NewTables();
      litlen, dist, precode := literals, distances, lengths;
      lens := new nat[NUM_LITLEN_SYMS + NUM_DIST_SYMS];
      precodeLens := new nat[NUM_PRECODE_SYMS];
      copies := new DeferredCopy[NUM_STREAMS](_ => DeferredCopy(0, 0, false));
      numLitlen, numDist := 0, 0;
    }

    method ClearCopies()
      requires Shaped()
      modifies copies
      ensures forall n :: 0 <= n < NUM_STREAMS ==> copies[n] == DeferredCopy(0, 0, false)
    {
      for n := 0 to NUM_STREAMS
        invariant forall i :: 0 <= i < n ==> copies[i] == DeferredCopy(0, 0, false)
      {
        copies[n] := DeferredCopy(0, 0, false);
      }
    }

    method ClearPrecode()
      requires Shaped()
      modifies precodeLens
      ensures precodeLens[..] == Repeat(0, NUM_PRECODE_SYMS)
    {
      for i := 0 to NUM_PRECODE_SYMS
        invariant forall j :: 0 <= j < i ==> precodeLens[j] == 0
      {
        precodeLens[i] := 0;
      }
    }

    ghost function HeldVectors(): Vectors
      requires Shaped() && numLitlen <= NUM_LITLEN_SYMS && numDist <= NUM_DIST_SYMS
      reads this, lens, s, s.bitbuf, s.bitsleft
    {
      Vectors(s.Abs(), lens[..numLitlen], lens[numLitlen..numLitlen + numDist])
    }

    lemma SplitVectors()
      requires Shaped() && numLitlen <= NUM_LITLEN_SYMS && numDist <= NUM_DIST_SYMS
      ensures lens[..numLitlen] == lens[..numLitlen + numDist][..numLitlen]
      ensures lens[numLitlen..numLitlen + numDist] == lens[..numLitlen + numDist][numLitlen..]
    {
    }

    method PreparePrecode(page: seq<byte>, explicitCount: nat) returns (ghost read: Result<Lengths>)
      requires Valid(page) && !s.failed && Ready(s.Abs()) && explicitCount <= NUM_PRECODE_SYMS
      modifies precodeLens, s, s.bitbuf, s.bitsleft, precode.Repr()
      ensures Valid(page)
      ensures read == PrecodeLengths(page, old(s.Abs()), Repeat(0, NUM_PRECODE_SYMS), 0, explicitCount)
      ensures read.Refused? ==> s.failed && s.reject == read.why
      ensures read.Ok? ==>
                Verdict(read.value.lens, NUM_PRECODE_SYMS, MAX_PRECODE_LEN) == if s.failed then Refused(s.reject) else Ok(precode.kind)
      ensures !s.failed ==> read.Ok? && s.Abs() == read.value.st && precode.Built(read.value.lens)
    {
      hide PrecodeLengths, Verdict, LaneBits, LanesTidy, Word, IsCode, Counted, Indexed, Ordered, Coded, Rooted, Pow2;
      ghost var st, zeros := s.Abs(), Repeat(0, NUM_PRECODE_SYMS);
      ClearPrecode();
      assert s.Abs() == st && precodeLens[..] == zeros;
      PrecodeRound(s, page, precodeLens, explicitCount);
      assert PrecodeLengths(page, st, zeros, 0, explicitCount) == if s.failed then Refused(s.reject) else Ok(Lengths(s.Abs(), precodeLens[..]));
      read := if s.failed then Refused(s.reject) else Ok(Lengths(s.Abs(), precodeLens[..]));
      if s.failed {
        return;
      }
      BuildOne(page, precode, precodeLens[..]);
    }

    /** From the precode's lengths to the two vectors. */
    method ReadWithPrecodeRounds(page: seq<byte>, c: Counts)
      requires Valid(page) && !s.failed && Ready(s.Abs()) && c.precode <= NUM_PRECODE_SYMS
      requires c.litlen <= NUM_LITLEN_SYMS && c.dist <= NUM_DIST_SYMS
      modifies this, lens, precodeLens, s, s.bitbuf, s.bitsleft, precode.Repr()
      ensures Valid(page)
      ensures !s.failed ==> numLitlen == c.litlen && numDist == c.dist
      ensures ReadWithPrecode(page, old(s.Abs()), c) == if s.failed then Refused(s.reject) else Ok(HeldVectors())
    {
      hide ReadWithPrecode, Expand, PrecodeLengths, Verdict, PrecodeOk, LaneBits, LanesTidy, Word, Counted, Indexed, Ordered, Coded, Rooted, Pow2;
      PrecodeUnfold(page, s.Abs(), c);
      ghost var read := PreparePrecode(page, c.precode);
      if s.failed {
        return;
      }
      FillVectors(page, c, read.value.lens);
    }

    /** The expansion, and the two vectors as the halves of it. */
    method FillVectors(page: seq<byte>, c: Counts, ghost pre: seq<nat>)
      requires Valid(page) && !s.failed && Ready(s.Abs()) && precode.Built(pre) && PrecodeOk(pre)
      requires c.litlen <= NUM_LITLEN_SYMS && c.dist <= NUM_DIST_SYMS
      modifies this, lens, s, s.bitbuf, s.bitsleft
      ensures Valid(page)
      ensures !s.failed ==> numLitlen == c.litlen && numDist == c.dist
      ensures Halved(Expand(page, pre, old(s.Abs()), [], c.litlen + c.dist, 0), c)
           == if s.failed then Refused(s.reject) else Ok(HeldVectors())
    {
      hide Expand, Verdict, PrecodeOk, LaneBits, LanesTidy, Word, InRange, Pow2, GDeflateHuffTable.Built, GDeflateHuffTable.Shaped;
      ExpandRounds(s, precode, page, lens, c.litlen + c.dist, pre);
      if s.failed {
        return;
      }
      numLitlen, numDist := c.litlen, c.dist;
      SplitVectors();
    }

    /** The code-length vectors, entered with BTYPE popped off lane 0: the two
        vectors are wholly written, and equal the sequential run expansion of
        the precode symbols in lane order. */
    method ReadCodeLengthRounds(page: seq<byte>) returns (ok: bool)
      requires Valid(page) && !s.failed && LanesPrimed(page, s.Abs())
      modifies this, lens, precodeLens, s, s.bitbuf, s.bitsleft, precode.Repr()
      ensures Valid(page) && ok == !s.failed
      ensures ok ==> numLitlen <= NUM_LITLEN_SYMS && numDist <= NUM_DIST_SYMS
      ensures EnsuredVectors(page, old(s.Abs())) == if s.failed then Refused(s.reject) else Ok(HeldVectors())
    {
      hide ReadCounts, ReadWithPrecode, LaneBits, LanesTidy, Word, Pow2;
      ghost var st0 := s.Abs();
      EnsureLane0(s, page);
      if s.failed {
        return false;
      }
      EnsuredIsReady(page, st0);
      ghost var st := s.Abs();
      var litlenCount, distCount, explicitCount := PopCounts(s, page);
      CountsKeep(page, st);
      EnsureLane0(s, page);
      if s.failed {
        return false;
      }
      var c := Counts(litlenCount, distCount, explicitCount, NoStreams);
      CountsDoNotCarry(page, s.Abs(), c, ReadCounts(st));
      ReadWithPrecodeRounds(page, c);
      return !s.failed;
    }

    method BuildTables(page: seq<byte>)
      requires Valid(page) && !s.failed && numLitlen <= NUM_LITLEN_SYMS && numDist <= NUM_DIST_SYMS
      modifies s`failed, s`reject, litlen.Repr(), dist.Repr()
      ensures Valid(page) && s.Abs() == old(s.Abs())
      ensures BuildCodes(HeldVectors())
           == if s.failed then Refused(s.reject)
              else Ok(Dynamic(s.Abs(), Codes(HeldVectors().litlen, HeldVectors().dist)))
      ensures !s.failed ==> litlen.Built(HeldVectors().litlen) && dist.Built(HeldVectors().dist)
    {
      hide Verdict, LaneBits, LanesTidy, Counted, Indexed, Ordered, Coded, Rooted, Pow2;
      BuildOne(page, litlen, lens[..numLitlen]);
      if s.failed {
        return;
      }
      BuildOne(page, dist, lens[numLitlen..numLitlen + numDist]);
    }

    /** Build one table, or fail for the reason its construction gives. */
    method BuildOne(page: seq<byte>, t: GDeflateHuffTable, vector: seq<nat>)
      requires s.Valid(page) && !s.failed && t.Shaped() && t.Repr() !! s.Repr()
      modifies s`failed, s`reject, t.Repr()
      ensures s.Valid(page) && s.Abs() == old(s.Abs())
      ensures Verdict(vector, t.cap, t.maxLen) == if s.failed then Refused(s.reject) else Ok(t.kind)
      ensures !s.failed ==> t.Built(vector)
    {
      hide Verdict, LaneBits, LanesTidy, Counted, Indexed, Ordered, Coded, Rooted, Pow2;
      VerdictReason(vector, t.cap, t.maxLen);
      var ok, why := t.BuildTable(vector);
      if !ok {
        s.Refuse(why);
      }
    }

    /** Both tables hold the codes the block declares, or the first reason they
        cannot is recorded. */
    method ReadDynamicTableRounds(page: seq<byte>) returns (ok: bool)
      requires Valid(page) && !s.failed && LanesPrimed(page, s.Abs())
      modifies this, lens, precodeLens, s, s.bitbuf, s.bitsleft, precode.Repr(), litlen.Repr(), dist.Repr()
      ensures Valid(page) && ok == !s.failed
      ensures ok ==> numLitlen <= NUM_LITLEN_SYMS && numDist <= NUM_DIST_SYMS
      ensures EnsuredDynamic(page, old(s.Abs()))
           == if s.failed then Refused(s.reject)
              else Ok(Dynamic(s.Abs(), Codes(HeldVectors().litlen, HeldVectors().dist)))
      ensures ok ==> litlen.Built(HeldVectors().litlen) && dist.Built(HeldVectors().dist)
    {
      hide EnsuredVectors, BuildCodes, Verdict, LaneBits, LanesTidy, Word, Counted, Indexed, Ordered, Coded, Rooted, Pow2;
      var read := ReadCodeLengthRounds(page);
      if !read {
        return false;
      }
      BuildTables(page);
      return !s.failed;
    }
  }

  const NoStreams := Streams([], 0)

  /** Only the three counts matter from here on. */
  lemma CountsDoNotCarry(page: seq<byte>, st: Streams, c: Counts, d: Counts)
    requires Ready(st) && st.cursor <= WordCount(page) && c.precode <= NUM_PRECODE_SYMS
    requires c.litlen == d.litlen && c.dist == d.dist && c.precode == d.precode
    ensures ReadWithPrecode(page, st, c) == ReadWithPrecode(page, st, d)
  {
  }

  lemma VerdictReason(lens: seq<nat>, cap: nat, m: nat)
    ensures Verdict(lens, cap, m).Refused? ==> Verdict(lens, cap, m).why != NoReject
  {
  }

  /** After the counts, one word brings lane 0 back to the watermark. */
  lemma CountsKeep(page: seq<byte>, st: Streams)
    requires Ready(st) && st.cursor <= WordCount(page)
    ensures LanesPrimed(page, ReadCounts(st).st)
    ensures var after := Refill(page, ReadCounts(st).st, 0);
            after.Ok? ==> Ready(after.value) && after.value.cursor <= WordCount(page)
  {
    if Refill(page, ReadCounts(st).st, 0).Ok? {
      ReadThenRefill(page, st, ReadCounts(st).st, 0);
    }
  }
}
