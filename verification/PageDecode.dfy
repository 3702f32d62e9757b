/** The page decoder: stored, static and dynamic blocks over the sequential
    team, with late copies, end-of-block drains and fuel caps
    (src/gdeflate_block.h). */
module PageDecode {
  import opened Bits
  import opened CanonicalCode
  import opened Schedule
  import opened HuffTable
  import opened Lz77
  import opened PageSpec
  import opened Team
  import opened Deferred

  // ----- one lane's speculative read -----

  /** What one lane resolved before anything is committed. */
  datatype LaneStep = LaneStep(read: LaneRead, sym: nat, value: nat)

  ghost predicate SpellsLitLen(step: LaneStep, want: Result<Reading<LitLen>>) {
    match want
    case Refused(why) => step.read.why == why
    case Ok(r) =>
      && step.read == LaneRead(r.width, NoReject)
      && match r.what
         case Byte(b) => step.sym == b
         case EndOfBlock => step.sym == END_OF_BLOCK
         case Length(len) => step.sym >= FIRST_LENGTH_SYM && step.value == len
  }

  ghost predicate SpellsDist(step: LaneStep, want: Result<Reading<nat>>) {
    match want
    case Refused(why) => step.read.why == why
    case Ok(r) => step.read == LaneRead(r.width, NoReject) && step.value == r.what
  }

  /** Name what the lane's bits begin with in the literal/length code, removing
      nothing yet. */
  method ResolveLitLen(t: GDeflateHuffTable, ghost lens: seq<nat>, buf: nat, left: nat) returns (step: LaneStep)
    requires t.Built(lens) && t.cap == NUM_LITLEN_SYMS && t.maxLen == MAX_CODE_LEN && IsCode(lens, MAX_CODE_LEN)
    requires |lens| <= NUM_LITLEN_SYMS && buf < Pow2(left) && LOW_WATERMARK_BITS <= left <= MAX_LANE_BITS
    ensures SpellsLitLen(step, ReadLitLen(lens, BitsOf(buf, left))) && step.read.consumed <= left
  {
    hide Low, BitsOf, Pow2, Resolved, Symbol, Verdict, IsCode, Kraft, LengthBase, LengthExtra;
    var sym, r := t.ResolveSymbol(lens, buf, left, NoRead);
    assert BitsOf(buf, left)[0..] == BitsOf(buf, left);
    ResolvedIsSymbol(lens, NUM_LITLEN_SYMS, MAX_CODE_LEN, t.kind, BitsOf(buf, left), sym, r.consumed, r.why);
    var value := 0;
    if r.why == NoReject && sym >= FIRST_LENGTH_SYM {
      var index := sym - FIRST_LENGTH_SYM;
      var extra;
      extra, r := ReadAhead(buf, left, r, LengthExtra(index));
      value := LengthBase(index) + extra;
    }
    return LaneStep(r, sym, value);
  }

  /** The same for a distance. */
  method ResolveDist(t: GDeflateHuffTable, ghost lens: seq<nat>, buf: nat, left: nat) returns (step: LaneStep)
    requires t.Built(lens) && t.cap == NUM_DIST_SYMS && t.maxLen == MAX_CODE_LEN && IsCode(lens, MAX_CODE_LEN)
    requires |lens| <= NUM_DIST_SYMS && buf < Pow2(left) && LOW_WATERMARK_BITS <= left <= MAX_LANE_BITS
    ensures SpellsDist(step, ReadDist(lens, BitsOf(buf, left))) && step.read.consumed <= left
  {
    hide Low, BitsOf, Pow2, Resolved, Symbol, Verdict, IsCode, Kraft, DistBase, DistExtra;
    var sym, r := t.ResolveSymbol(lens, buf, left, NoRead);
    assert BitsOf(buf, left)[0..] == BitsOf(buf, left);
    ResolvedIsSymbol(lens, NUM_DIST_SYMS, MAX_CODE_LEN, t.kind, BitsOf(buf, left), sym, r.consumed, r.why);
    var value := 0;
    if r.why == NoReject {
      var extra;
      extra, r := ReadAhead(buf, left, r, DistExtra(sym));
      value := DistBase(sym) + extra;
    }
    return LaneStep(r, sym, value);
  }

  // ----- one lane's commit -----

  /** The tables of a block, and what they were built from. */
  ghost predicate TablesFor(litlen: GDeflateHuffTable, dist: GDeflateHuffTable, c: Codes)
    reads litlen.Repr(), dist.Repr()
  {
    && CodesOk(c) && litlen.Built(c.litlen) && dist.Built(c.dist)
    && litlen.cap == NUM_LITLEN_SYMS && litlen.maxLen == MAX_CODE_LEN
    && dist.cap == NUM_DIST_SYMS && dist.maxLen == MAX_CODE_LEN
  }

  /** Remove the distance's bits and clear the reservation, unless the match would
      begin before the output does. */
  method RetireCopy(s: GDeflateSchedule, copies: array<DeferredCopy>, page: seq<byte>, l: nat, step: LaneStep) returns (ok: bool)
    requires s.Valid(page) && !s.failed && s.idx == l < copies.Length && step.read.consumed <= |s.Abs().lanes[l]|
    modifies s, s.bitbuf, s.bitsleft, copies
    ensures s.Valid(page) && s.idx == l && ok == !s.failed
    ensures step.read.why != NoReject ==> s.failed && s.reject == step.read.why
    ensures step.read.why == NoReject && step.value > old(copies[l]).outPos ==> s.failed && s.reject == MatchBeforeOutput
    ensures step.read.why == NoReject && step.value <= old(copies[l]).outPos ==>
              && !s.failed && s.Abs() == Consume(old(s.Abs()), l, step.read.consumed)
              && copies[..] == old(copies[..])[l := old(copies[l]).(pending := false)]
  {
    if step.read.why != NoReject {
      s.Refuse(step.read.why);
      return false;
    }
    s.Remove(page, step.read.consumed);
    if step.value > copies[l].outPos {
      s.Refuse(MatchBeforeOutput);
      return false;
    }
    copies[l] := copies[l].(pending := false);
    return true;
  }

  /** The parse once lane `l` has paid. */
  function Paid(p: Parse, l: nat, width: nat, dist: nat): Parse
    requires l < |p.st.lanes| && width <= |p.st.lanes[l]| && l < |p.pend| && p.pend[l].Owes? && p.pend[l].token < |p.tokens|
    requires p.tokens[p.pend[l].token].Reserved?
  {
    var j := p.pend[l].token;
    Parse(Consume(p.st, l, width), p.tokens[j := Match(p.tokens[j].len, dist)], p.pend[l := Idle])
  }

  lemma RetireCases(c: Codes, p: Parse, l: nat, copies: seq<DeferredCopy>, out: seq<byte>, cap: nat, step: LaneStep)
    requires CodesOk(c) && Ready(p.st) && Tracks(p.tokens, p.pend, l, copies, out, cap) && p.pend[l].Owes?
    requires SpellsDist(step, ReadDist(c.dist, p.st.lanes[l])) && step.read.consumed <= |p.st.lanes[l]|
    ensures step.read.why != NoReject ==> Retire(c, p, l) == Refused(step.read.why)
    ensures step.read.why == NoReject ==> step.value >= 1
    ensures step.read.why == NoReject && step.value > copies[l].outPos ==> Retire(c, p, l) == Refused(MatchBeforeOutput)
    ensures step.read.why == NoReject && step.value <= copies[l].outPos ==>
              Retire(c, p, l) == Ok(Paid(p, l, step.read.consumed, step.value))
  {
  }

  /** A lane that owes a distance reads it and performs its copy. */
  method PayLane(s: GDeflateSchedule, dist: GDeflateHuffTable, copies: array<DeferredCopy>, out: array<byte>,
                 page: seq<byte>, l: nat, ghost c: Codes, ghost cap: nat, ghost p: Parse)
    returns (ghost q: Parse)
    requires s.Valid(page) && !s.failed && s.idx == l < NUM_STREAMS && p.st == s.Abs() && Ready(p.st)
    requires CodesOk(c) && dist.Built(c.dist) && dist.cap == NUM_DIST_SYMS && dist.maxLen == MAX_CODE_LEN
    requires Tracks(p.tokens, p.pend, l, copies[..], out[..], cap) && p.pend[l].Owes?
    requires dist.Repr() !! s.Repr()
    modifies s, s.bitbuf, s.bitsleft, copies, out
    ensures s.Valid(page) && s.idx == l
    ensures Retire(c, p, l) == if s.failed then Refused(s.reject) else Ok(q)
    ensures !s.failed ==> q.st == s.Abs() && Tracks(q.tokens, q.pend, NextLane(l), copies[..], out[..], cap)
    ensures forall i :: cap <= i < out.Length ==> out[i] == old(out[i])
  {
    hide ReadDist, Retire, Low, Tracks, OutLen, IsCode, Verdict, GDeflateHuffTable.Built, GDeflateHuffTable.Shaped, Pow2;
    q := p;
    ghost var copies0, out0 := copies[..], out[..];
    assert s.Abs().lanes[l] == BitsOf(s.bitbuf[l], s.bitsleft[l]);
    var step := ResolveDist(dist, c.dist, s.bitbuf[l], s.bitsleft[l]);
    HoleFits(p.tokens, p.pend, l, copies0, out0, cap);
    RetireCases(c, p, l, copies0, out0, cap, step);
    var ok := RetireCopy(s, copies, page, l, step);
    if !ok {
      return;
    }
    var hole := copies[l];
    CopyBytes(out, hole.outPos, hole.outPos - step.value, hole.length);
    TrackRetire(p.tokens, p.pend, l, copies0, out0, cap, step.value, out[..]);
    q := Paid(p, l, step.read.consumed, step.value);
  }

  datatype LaneMode = IdleLane | LiteralLane | ReserveLane | EndOfBlockLane | CopyLane

  /** A lane with a reservation pays it; of the others, those below the lane that
      ended the block commit what they read, and those above it commit nothing. */
  function ModeOf(pending: bool, l: nat, firstEob: nat, step: LaneStep): LaneMode {
    if pending then CopyLane
    else if l < firstEob then
      if step.read.why != NoReject || step.sym < END_OF_BLOCK then LiteralLane else ReserveLane
    else if l == firstEob then EndOfBlockLane
    else IdleLane
  }

  /** Commit a literal, a reservation or the end of the block. */
  method CommitSymbol(s: GDeflateSchedule, copies: array<DeferredCopy>, out: array<byte>, page: seq<byte>,
                      l: nat, step: LaneStep, mode: LaneMode, pos: nat, cap: nat)
    requires s.Valid(page) && !s.failed && s.idx == l < copies.Length && step.read.consumed <= |s.Abs().lanes[l]|
    requires cap <= out.Length && (mode.LiteralLane? && step.read.why == NoReject ==> step.sym < END_OF_BLOCK)
    modifies s, s.bitbuf, s.bitsleft, copies, out
    ensures s.Valid(page) && s.idx == l
    ensures step.read.why != NoReject ==> s.failed && s.reject == step.read.why
    ensures step.read.why == NoReject ==>
              match mode
              case LiteralLane =>
                if pos >= cap then s.failed && s.reject == LiteralPastCap
                else !s.failed && out[..] == old(out[..])[pos := step.sym] && copies[..] == old(copies[..])
              case ReserveLane =>
                if pos > cap || step.value > cap - pos then s.failed && s.reject == MatchPastCap
                else !s.failed && copies[..] == old(copies[..])[l := DeferredCopy(pos, step.value, true)] && out[..] == old(out[..])
              case _ => !s.failed && out[..] == old(out[..]) && copies[..] == old(copies[..])
    ensures !s.failed ==> s.Abs() == Consume(old(s.Abs()), l, step.read.consumed)
    ensures s.failed ==> out[..] == old(out[..])
  {
    if step.read.why != NoReject {
      s.Refuse(step.read.why);
      return;
    }
    s.Remove(page, step.read.consumed);
    if mode.LiteralLane? {
      if pos >= cap {
        s.Refuse(LiteralPastCap);
      } else {
        out[pos] := step.sym;
      }
    } else if mode.ReserveLane? {
      if pos > cap || step.value > cap - pos {
        s.Refuse(MatchPastCap);
      } else {
        copies[l] := DeferredCopy(pos, step.value, true);
      }
    }
  }

  /** The parse once lane `l` has read a symbol. */
  function Wrote(p: Parse, l: nat, width: nat, b: byte): Parse
    requires l < |p.st.lanes| && width <= |p.st.lanes[l]|
  {
    Parse(Consume(p.st, l, width), p.tokens + [Literal(b)], p.pend)
  }

  function Opened(p: Parse, l: nat, width: nat, len: nat): Parse
    requires l < |p.st.lanes| && width <= |p.st.lanes[l]| && l < |p.pend|
  {
    Parse(Consume(p.st, l, width), p.tokens + [Reserved(len, l)], p.pend[l := Owes(|p.tokens|)])
  }

  function Skipped(p: Parse, l: nat, width: nat): Parse
    requires l < |p.st.lanes| && width <= |p.st.lanes[l]|
  {
    p.(st := Consume(p.st, l, width))
  }

  lemma ReadNextCases(c: Codes, cap: nat, p: Parse, l: nat, step: LaneStep)
    requires CodesOk(c) && Ready(p.st) && Linked(p.tokens, p.pend) && l < NUM_STREAMS && p.pend[l].Idle? && OutLen(p.tokens) <= cap
    requires SpellsLitLen(step, ReadLitLen(c.litlen, p.st.lanes[l])) && step.read.consumed <= |p.st.lanes[l]|
    ensures step.read.why != NoReject ==> ReadNext(c, cap, p, l) == Refused(step.read.why)
    ensures step.read.why == NoReject && step.sym < END_OF_BLOCK ==>
              ReadNext(c, cap, p, l)
              == if OutLen(p.tokens) >= cap then Refused(LiteralPastCap) else Ok(More(Wrote(p, l, step.read.consumed, step.sym)))
    ensures step.read.why == NoReject && step.sym == END_OF_BLOCK ==>
              ReadNext(c, cap, p, l) == Ok(Ended(Skipped(p, l, step.read.consumed)))
    ensures step.read.why == NoReject && step.sym > END_OF_BLOCK ==>
              ReadNext(c, cap, p, l)
              == if step.value > cap - OutLen(p.tokens) then Refused(MatchPastCap) else Ok(More(Opened(p, l, step.read.consumed, step.value)))
  {
  }

  /** A lane at or below the end of the block that owes nothing. */
  method ReadLane(s: GDeflateSchedule, copies: array<DeferredCopy>, out: array<byte>, page: seq<byte>,
                  l: nat, step: LaneStep, mode: LaneMode, pos: nat, cap: nat, ghost c: Codes, ghost p: Parse)
    returns (ghost q: Parse)
    requires s.Valid(page) && !s.failed && s.idx == l < NUM_STREAMS && p.st == s.Abs() && Ready(p.st) && CodesOk(c)
    requires Tracks(p.tokens, p.pend, l, copies[..], out[..], cap) && p.pend[l].Idle? && pos == OutLen(p.tokens)
    requires SpellsLitLen(step, ReadLitLen(c.litlen, p.st.lanes[l])) && step.read.consumed <= |p.st.lanes[l]|
    requires mode == if step.read.why != NoReject || step.sym < END_OF_BLOCK then LiteralLane
                     else if step.sym == END_OF_BLOCK then EndOfBlockLane else ReserveLane
    modifies s, s.bitbuf, s.bitsleft, copies, out
    ensures s.Valid(page) && s.idx == l
    ensures ReadNext(c, cap, p, l) == if s.failed then Refused(s.reject) else Ok(if mode.EndOfBlockLane? then Ended(q) else More(q))
    ensures !s.failed ==> q.st == s.Abs() && Tracks(q.tokens, q.pend, NextLane(l), copies[..], out[..], cap)
    ensures !s.failed ==> OutLen(q.tokens) == pos + (if mode.LiteralLane? then 1 else if mode.ReserveLane? then step.value else 0)
    ensures forall i :: cap <= i < out.Length ==> out[i] == old(out[i])
  {
    hide ReadLitLen, ReadNext, Low, Tracks, OutLen, IsCode, Verdict, BitsOf, Pow2, LaneBits;
    ghost var copies0, out0 := copies[..], out[..];
    TrackFacts(p.tokens, p.pend, l, copies0, out0, cap);
    ReadNextCases(c, cap, p, l, step);
    CommitSymbol(s, copies, out, page, l, step, mode, pos, cap);
    assert forall i :: 0 <= i < out.Length ==> out[..][i] == out[i] && out0[i] == old(out[i]);
    q := p;
    if s.failed {
      return;
    }
    if mode.LiteralLane? {
      TrackLiteral(p.tokens, p.pend, l, copies0, out0, cap, step.sym);
      LiteralKeeps(p.tokens, p.pend, step.sym);
      q := Wrote(p, l, step.read.consumed, step.sym);
    } else if mode.ReserveLane? {
      TrackReserve(p.tokens, p.pend, l, copies0, out0, cap, step.value);
      ReserveKeeps(p.tokens, p.pend, l, step.value);
      q := Opened(p, l, step.read.consumed, step.value);
    } else {
      TrackPass(p.tokens, p.pend, l, copies0, out0, cap);
      q := Skipped(p, l, step.read.consumed);
    }
  }

  /** The objects of a block: nothing the rounds write is part of a table. */
  ghost predicate Apart(s: GDeflateSchedule, litlen: GDeflateHuffTable, dist: GDeflateHuffTable,
                        copies: array<DeferredCopy>, out: array<byte>) {
    && litlen.Repr() !! s.Repr() && dist.Repr() !! s.Repr()
    && (copies as object) !in s.Repr() + litlen.Repr() + dist.Repr()
    && (out as object) !in s.Repr() + litlen.Repr() + dist.Repr()
  }

  ghost predicate LaneReady(s: GDeflateSchedule, copies: array<DeferredCopy>, out: array<byte>, page: seq<byte>,
                            l: nat, outPos: nat, cap: nat, p: Parse)
    reads s, s.bitbuf, s.bitsleft, copies, out
  {
    && s.Valid(page) && !s.failed && p.st == s.Abs() && Live(page, cap, p)
    && Tracks(p.tokens, p.pend, l, copies[..], out[..], cap) && outPos == OutLen(p.tokens)
  }

  /** The turn of a lane that owes nothing: what it reads counts only if no lower
      lane has ended the block. */
  method ReadBody(s: GDeflateSchedule, litlen: GDeflateHuffTable, copies: array<DeferredCopy>, out: array<byte>,
                  page: seq<byte>, l: nat, outPos: nat, firstEob: nat, cap: nat, ghost c: Codes, ghost p: Parse)
    returns (outPos': nat, firstEob': nat, ghost q: Parse)
    requires l < NUM_STREAMS && s.Valid(page) && !s.failed && s.idx == l && p.st == s.Abs() && Ready(p.st)
    requires Tracks(p.tokens, p.pend, l, copies[..], out[..], cap) && outPos == OutLen(p.tokens) && p.pend[l].Idle?
    requires CodesOk(c) && litlen.Built(c.litlen) && litlen.cap == NUM_LITLEN_SYMS && litlen.maxLen == MAX_CODE_LEN
    requires litlen.Repr() !! s.Repr()
    requires firstEob == NO_LANE || firstEob < l
    modifies s, s.bitbuf, s.bitsleft, copies, out
    ensures s.Valid(page) && s.idx == l
    ensures firstEob == NO_LANE ==>
              && (firstEob' == NO_LANE || firstEob' == l)
              && ReadNext(c, cap, p, l) == if s.failed then Refused(s.reject) else Ok(if firstEob' == l then Ended(q) else More(q))
    ensures firstEob < l ==> firstEob' == firstEob && !s.failed && q == p
    ensures !s.failed ==> q.st == s.Abs() && Tracks(q.tokens, q.pend, NextLane(l), copies[..], out[..], cap) && outPos' == OutLen(q.tokens)
    ensures forall i :: cap <= i < out.Length ==> out[i] == old(out[i])
  {
    hide Linked, ReadLitLen, ReadNext, Low, Tracks, OutLen, IsCode, Verdict, BitsOf, Pow2, LaneBits, LanesTidy, GDeflateHuffTable.Built, GDeflateHuffTable.Shaped;
    q, outPos', firstEob' := p, outPos, firstEob;
    s.HeldAt(page, l);
    var step := ResolveLitLen(litlen, c.litlen, s.bitbuf[l], s.bitsleft[l]);
    var hitEob := step.read.why == NoReject && step.sym == END_OF_BLOCK;
    firstEob' := if hitEob && firstEob == NO_LANE then l else firstEob;
    var mode := ModeOf(false, l, firstEob', step);
    if mode.IdleLane? {
      TrackPass(p.tokens, p.pend, l, copies[..], out[..], cap);
    } else {
      var claim := if mode.LiteralLane? then 1
                   else if mode.ReserveLane? && step.read.why == NoReject then step.value else 0;
      outPos' := outPos + claim;
      q := ReadLane(s, copies, out, page, l, step, mode, outPos, cap, c, p);
    }
  }

  /** A lane's turn in a round. Its effect is the reading's symbol step, or its
      drain step if a lower lane has already ended the block. */
  method LaneBody(s: GDeflateSchedule, litlen: GDeflateHuffTable, dist: GDeflateHuffTable, copies: array<DeferredCopy>,
                  out: array<byte>, page: seq<byte>, l: nat, outPos: nat, firstEob: nat, cap: nat, ghost c: Codes, ghost p: Parse)
    returns (outPos': nat, firstEob': nat, ghost q: Parse)
    requires l < NUM_STREAMS && LaneReady(s, copies, out, page, l, outPos, cap, p) && s.idx == l
    requires TablesFor(litlen, dist, c) && Apart(s, litlen, dist, copies, out)
    requires firstEob == NO_LANE || firstEob < l
    modifies s, s.bitbuf, s.bitsleft, copies, out
    ensures s.Valid(page) && s.idx == l && TablesFor(litlen, dist, c)
    ensures p.pend[l].Owes? ==> firstEob' == firstEob && Retire(c, p, l) == if s.failed then Refused(s.reject) else Ok(q)
    ensures p.pend[l].Idle? && firstEob == NO_LANE ==>
              && (firstEob' == NO_LANE || firstEob' == l)
              && ReadNext(c, cap, p, l) == if s.failed then Refused(s.reject) else Ok(if firstEob' == l then Ended(q) else More(q))
    ensures p.pend[l].Idle? && firstEob < l ==> firstEob' == firstEob && !s.failed && q == p
    ensures !s.failed ==> q.st == s.Abs() && Tracks(q.tokens, q.pend, NextLane(l), copies[..], out[..], cap) && outPos' == OutLen(q.tokens)
    ensures forall i :: cap <= i < out.Length ==> out[i] == old(out[i])
  {
    hide Linked, ReadLitLen, ReadNext, Retire, Low, Tracks, OutLen, IsCode, Verdict, BitsOf, Pow2, GDeflateHuffTable.Built, GDeflateHuffTable.Shaped;
    q, outPos', firstEob' := p, outPos, firstEob;
    TrackFacts(p.tokens, p.pend, l, copies[..], out[..], cap);
    var pending := copies[l].pending;
    if pending {
      q := PayLane(s, dist, copies, out, page, l, c, cap, p);
      return;
    }
    outPos', firstEob', q := ReadBody(s, litlen, copies, out, page, l, outPos, firstEob, cap, c, p);
  }

  /** One lane of a symbol round, and the word it is due. */
  method SymbolLane(s: GDeflateSchedule, litlen: GDeflateHuffTable, dist: GDeflateHuffTable, copies: array<DeferredCopy>,
                    out: array<byte>, page: seq<byte>, l: nat, outPos: nat, firstEob: nat, cap: nat, ghost c: Codes, ghost p: Parse)
    returns (outPos': nat, firstEob': nat, ghost q: Parse)
    requires l < NUM_STREAMS && LaneReady(s, copies, out, page, l, outPos, cap, p)
    requires TablesFor(litlen, dist, c) && Apart(s, litlen, dist, copies, out)
    requires firstEob == NO_LANE || firstEob < l
    modifies s, s.bitbuf, s.bitsleft, copies, out
    ensures s.Valid(page) && TablesFor(litlen, dist, c)
    ensures firstEob == NO_LANE ==>
              && (firstEob' == NO_LANE || firstEob' == l)
              && SymbolStep(page, c, cap, p, l)
                 == if s.failed then Refused(s.reject) else Ok(if firstEob' == l then Ended(q) else More(q))
    ensures firstEob < l ==>
              firstEob' == firstEob && DrainStep(page, c, cap, p, l) == if s.failed then Refused(s.reject) else Ok(q)
    ensures !s.failed ==> LaneReady(s, copies, out, page, NextLane(l), outPos', cap, q)
    ensures forall i :: cap <= i < out.Length ==> out[i] == old(out[i])
  {
    hide Refill, Ready, SymbolStep, DrainStep, ReadNext, Retire, Live, Linked, Total, Low, Tracks, OutLen, CodesOk, IsCode, Verdict, BitsOf, LaneBits, LanesTidy, Pow2, GDeflateHuffTable.Built, GDeflateHuffTable.Shaped;
    s.Select(page, l);
    LiveFacts(page, cap, p);
    outPos', firstEob', q := LaneBody(s, litlen, dist, copies, out, page, l, outPos, firstEob, cap, c, p);
    if s.failed {
      StepRefuses(page, c, cap, p, l, s.reject);
    } else {
      if firstEob == NO_LANE {
        SymbolStepDone(page, c, cap, p, l, q, firstEob' == l);
      } else {
        DrainStepDone(page, c, cap, p, l, q);
      }
      s.Advance(page);
      q := q.(st := s.Abs());
    }
  }

  lemma LiveFacts(page: seq<byte>, cap: nat, p: Parse)
    requires Live(page, cap, p)
    ensures Ready(p.st) && p.st.cursor <= WordCount(page) && Linked(p.tokens, p.pend) && OutLen(p.tokens) <= cap
    ensures |p.pend| == |p.st.lanes| == NUM_STREAMS
  {
  }

  /** What a lane cannot commit is the refusal of its step. */
  lemma StepRefuses(page: seq<byte>, c: Codes, cap: nat, p: Parse, l: nat, why: Reject)
    requires CodesOk(c) && Live(page, cap, p) && l < NUM_STREAMS
    ensures p.pend[l].Owes? && Retire(c, p, l) == Refused(why) ==>
              SymbolStep(page, c, cap, p, l) == Refused(why) && DrainStep(page, c, cap, p, l) == Refused(why)
    ensures p.pend[l].Idle? && ReadNext(c, cap, p, l) == Refused(why) ==> SymbolStep(page, c, cap, p, l) == Refused(why)
  {
    hide Retire, ReadNext, CodesOk;
  }

  /** What a lane commits, then the word it is due, is its step. */
  lemma SymbolStepDone(page: seq<byte>, c: Codes, cap: nat, p: Parse, l: nat, q: Parse, ended: bool)
    requires CodesOk(c) && Live(page, cap, p) && l < NUM_STREAMS
    requires p.pend[l].Owes? ==> !ended && Retire(c, p, l) == Ok(q)
    requires p.pend[l].Idle? ==> ReadNext(c, cap, p, l) == Ok(if ended then Ended(q) else More(q))
    ensures |q.st.lanes| == NUM_STREAMS && q.st.cursor <= WordCount(page)
    ensures var word := Refill(page, q.st, l);
            if word.Refused? then SymbolStep(page, c, cap, p, l) == Refused(word.why)
            else
              var q' := q.(st := word.value);
              SymbolStep(page, c, cap, p, l) == Ok(if ended then Ended(q') else More(q')) && Live(page, cap, q')
  {
    hide Retire, ReadNext, CodesOk;
    if Refill(page, q.st, l).Ok? {
      SymbolStepKeeps(page, c, cap, p, l);
    }
  }

  lemma DrainStepDone(page: seq<byte>, c: Codes, cap: nat, p: Parse, l: nat, q: Parse)
    requires CodesOk(c) && Live(page, cap, p) && l < NUM_STREAMS
    requires if p.pend[l].Owes? then Retire(c, p, l) == Ok(q) else q == p
    ensures |q.st.lanes| == NUM_STREAMS && q.st.cursor <= WordCount(page)
    ensures var word := Refill(page, q.st, l);
            if word.Refused? then DrainStep(page, c, cap, p, l) == Refused(word.why)
            else DrainStep(page, c, cap, p, l) == Ok(q.(st := word.value)) && Live(page, cap, q.(st := word.value))
  {
    hide Retire, CodesOk;
    if Refill(page, q.st, l).Ok? {
      DrainStepKeeps(page, c, cap, p, l);
    }
  }

  // ----- the rounds of a block -----

  lemma SymbolsUnfold(page: seq<byte>, c: Codes, cap: nat, p: Parse, l: nat)
    requires CodesOk(c) && Live(page, cap, p) && l < NUM_STREAMS
    ensures var s := SymbolStep(page, c, cap, p, l);
            && (s.Refused? ==> Symbols(page, c, cap, p, l) == Refused(s.why))
            && (s.Ok? ==> Live(page, cap, s.value.p))
            && (s.Ok? && s.value.More? ==>
                  && Budget(cap, s.value.p) < Budget(cap, p)
                  && Symbols(page, c, cap, p, l) == Symbols(page, c, cap, s.value.p, NextLane(l)))
            && (s.Ok? && s.value.Ended? ==>
                  && OnlyNextOwe(s.value.p.pend, NextLane(l), NUM_STREAMS - 1)
                  && Symbols(page, c, cap, p, l) == Drain(page, c, cap, s.value.p, NextLane(l), NUM_STREAMS - 1))
  {
    if SymbolStep(page, c, cap, p, l).Ok? {
      SymbolStepKeeps(page, c, cap, p, l);
      if p.pend[l].Idle? { OthersOwe(p.pend, l); }
    }
  }

  lemma DrainUnfold(page: seq<byte>, c: Codes, cap: nat, p: Parse, l: nat, n: nat)
    requires CodesOk(c) && Live(page, cap, p) && l < NUM_STREAMS && 1 <= n < NUM_STREAMS && OnlyNextOwe(p.pend, l, n)
    ensures var s := DrainStep(page, c, cap, p, l);
            && (s.Refused? ==> Drain(page, c, cap, p, l, n) == Refused(s.why))
            && (s.Ok? ==>
                  && Live(page, cap, s.value) && OnlyNextOwe(s.value.pend, NextLane(l), n - 1)
                  && Drain(page, c, cap, p, l, n) == Drain(page, c, cap, s.value, NextLane(l), n - 1))
  {
    if DrainStep(page, c, cap, p, l).Ok? {
      DrainStepKeeps(page, c, cap, p, l);
    }
  }

  function LaneAfter(l: nat): nat
    requires l <= NUM_STREAMS
  {
    if l == NUM_STREAMS then 0 else l
  }

  /** What is left of the block when a round has reached lane `l`: more symbols,
      or the rest of the drain that began behind lane `firstEob`. */
  ghost predicate Rest(page: seq<byte>, c: Codes, cap: nat, p: Parse, l: nat, firstEob: nat, goal: Result<Parse>)
    requires CodesOk(c) && Live(page, cap, p) && l <= NUM_STREAMS
  {
    if firstEob == NO_LANE then goal == Symbols(page, c, cap, p, LaneAfter(l))
    else
      && firstEob < l
      && OnlyNextOwe(p.pend, LaneAfter(l), NUM_STREAMS - (l - firstEob))
      && goal == Drain(page, c, cap, p, LaneAfter(l), NUM_STREAMS - (l - firstEob))
  }

  lemma RestAdvances(page: seq<byte>, c: Codes, cap: nat, p: Parse, l: nat, firstEob: nat, goal: Result<Parse>, q: Parse, firstEob': nat)
    requires CodesOk(c) && Live(page, cap, p) && l < NUM_STREAMS && Live(page, cap, q)
    requires firstEob == NO_LANE || firstEob < l
    requires Rest(page, c, cap, p, l, firstEob, goal)
    requires firstEob == NO_LANE ==>
               && (firstEob' == NO_LANE || firstEob' == l)
               && SymbolStep(page, c, cap, p, l) == Ok(if firstEob' == l then Ended(q) else More(q))
    requires firstEob < l ==> firstEob' == firstEob && DrainStep(page, c, cap, p, l) == Ok(q)
    ensures Rest(page, c, cap, q, l + 1, firstEob', goal)
    ensures firstEob' == NO_LANE ==> Budget(cap, q) < Budget(cap, p)
  {
    hide Linked, Total, Symbols, Drain, SymbolStep, DrainStep, OutLen, PendCount, Budget, Live;
    if firstEob == NO_LANE {
      SymbolsUnfold(page, c, cap, p, l);
    } else {
      DrainUnfold(page, c, cap, p, l, NUM_STREAMS - (l - firstEob));
    }
  }

  lemma RestRefuses(page: seq<byte>, c: Codes, cap: nat, p: Parse, l: nat, firstEob: nat, goal: Result<Parse>, why: Reject)
    requires CodesOk(c) && Live(page, cap, p) && l < NUM_STREAMS
    requires firstEob == NO_LANE || firstEob < l
    requires Rest(page, c, cap, p, l, firstEob, goal)
    requires if firstEob == NO_LANE then SymbolStep(page, c, cap, p, l) == Refused(why)
             else DrainStep(page, c, cap, p, l) == Refused(why)
    ensures goal == Refused(why)
  {
    hide Symbols, Drain, SymbolStep, DrainStep, OutLen, PendCount, Budget, Live;
    if firstEob == NO_LANE {
      SymbolsUnfold(page, c, cap, p, l);
    } else {
      DrainUnfold(page, c, cap, p, l, NUM_STREAMS - (l - firstEob));
    }
  }

  /** One round of 32 lanes. */
  method SymbolRound(s: GDeflateSchedule, litlen: GDeflateHuffTable, dist: GDeflateHuffTable, copies: array<DeferredCopy>,
                     out: array<byte>, page: seq<byte>, outPos: nat, cap: nat, ghost c: Codes, ghost p: Parse, ghost goal: Result<Parse>)
    returns (outPos': nat, eobLane: nat, ghost q: Parse)
    requires LaneReady(s, copies, out, page, 0, outPos, cap, p)
    requires TablesFor(litlen, dist, c) && Apart(s, litlen, dist, copies, out)
    requires goal == Symbols(page, c, cap, p, 0)
    modifies s, s.bitbuf, s.bitsleft, copies, out
    ensures s.Valid(page) && TablesFor(litlen, dist, c)
    ensures s.failed ==> goal == Refused(s.reject) && Steps(page, c, cap, p, 0) < NUM_STREAMS
    ensures !s.failed ==>
              && LaneReady(s, copies, out, page, 0, outPos', cap, q) && eobLane <= NO_LANE
              && Rest(page, c, cap, q, NUM_STREAMS, eobLane, goal)
              && (eobLane == NO_LANE ==> Budget(cap, q) + NUM_STREAMS <= Budget(cap, p))
              && Steps(page, c, cap, p, 0) == if eobLane == NO_LANE then NUM_STREAMS + Steps(page, c, cap, q, 0) else eobLane
    ensures forall i :: cap <= i < out.Length ==> out[i] == old(out[i])
  {
    hide Total, Ready, Linked, Symbols, Steps, Drain, SymbolStep, DrainStep, Rest, Tracks, OutLen, PendCount, Budget, CodesOk, BitsOf, LaneBits, LanesTidy, GDeflateHuffTable.Built, GDeflateHuffTable.Shaped, Verdict;
    outPos', eobLane, q := outPos, NO_LANE, p;
    RestBegins(page, c, cap, p, goal);
    for l := 0 to NUM_STREAMS
      invariant s.Valid(page) && !s.failed && TablesFor(litlen, dist, c)
      invariant LaneReady(s, copies, out, page, LaneAfter(l), outPos', cap, q)
      invariant eobLane == NO_LANE || eobLane < l
      invariant Rest(page, c, cap, q, l, eobLane, goal)
      invariant eobLane == NO_LANE ==> Budget(cap, q) + l <= Budget(cap, p)
      invariant Steps(page, c, cap, p, 0) == if eobLane == NO_LANE then l + Steps(page, c, cap, q, LaneAfter(l)) else eobLane
      invariant forall i :: cap <= i < out.Length ==> out[i] == old(out[i])
    {
      ghost var was, eob := q, eobLane;
      outPos', eobLane, q := SymbolLane(s, litlen, dist, copies, out, page, l, outPos', eobLane, cap, c, q);
      if s.failed {
        RestRefuses(page, c, cap, was, l, eob, goal, s.reject);
        if eob == NO_LANE {
          StepNotTaken(page, c, cap, was, l);
        }
        return;
      }
      if eob == NO_LANE {
        StepTaken(page, c, cap, was, l, q, eobLane == l);
      }
      RestAdvances(page, c, cap, was, l, eob, goal, q, eobLane);
    }
  }

  lemma StepTaken(page: seq<byte>, c: Codes, cap: nat, p: Parse, l: nat, q: Parse, ended: bool)
    requires CodesOk(c) && Live(page, cap, p) && l < NUM_STREAMS && Live(page, cap, q)
    requires SymbolStep(page, c, cap, p, l) == Ok(if ended then Ended(q) else More(q))
    ensures Steps(page, c, cap, p, l) == if ended then 0 else 1 + Steps(page, c, cap, q, NextLane(l))
  {
    hide SymbolStep, CodesOk, Live;
  }

  lemma StepNotTaken(page: seq<byte>, c: Codes, cap: nat, p: Parse, l: nat)
    requires CodesOk(c) && Live(page, cap, p) && l < NUM_STREAMS && SymbolStep(page, c, cap, p, l).Refused?
    ensures Steps(page, c, cap, p, l) == 0
  {
  }

  lemma RestBegins(page: seq<byte>, c: Codes, cap: nat, p: Parse, goal: Result<Parse>)
    requires CodesOk(c) && Live(page, cap, p) && goal == Symbols(page, c, cap, p, 0)
    ensures Rest(page, c, cap, p, 0, NO_LANE, goal)
  {
  }

  /** A lane pays what it owes, or does nothing. */
  method PayIfOwing(s: GDeflateSchedule, litlen: GDeflateHuffTable, dist: GDeflateHuffTable, copies: array<DeferredCopy>,
                    out: array<byte>, page: seq<byte>, l: nat, ghost c: Codes, ghost cap: nat, ghost p: Parse)
    returns (ghost q: Parse)
    requires s.Valid(page) && !s.failed && s.idx == l < NUM_STREAMS && p.st == s.Abs() && Ready(p.st)
    requires TablesFor(litlen, dist, c) && Apart(s, litlen, dist, copies, out)
    requires Tracks(p.tokens, p.pend, l, copies[..], out[..], cap)
    modifies s, s.bitbuf, s.bitsleft, copies, out
    ensures s.Valid(page) && s.idx == l && TablesFor(litlen, dist, c)
    ensures if p.pend[l].Owes? then Retire(c, p, l) == if s.failed then Refused(s.reject) else Ok(q)
            else !s.failed && q == p
    ensures !s.failed ==> q.st == s.Abs() && Tracks(q.tokens, q.pend, NextLane(l), copies[..], out[..], cap)
    ensures !s.failed ==> OutLen(q.tokens) == OutLen(p.tokens)
    ensures forall i :: cap <= i < out.Length ==> out[i] == old(out[i])
  {
    hide Retire, Live, Linked, Total, Low, Tracks, OutLen, IsCode, Verdict, BitsOf, LaneBits, LanesTidy, Pow2, GDeflateHuffTable.Built, GDeflateHuffTable.Shaped;
    TrackFacts(p.tokens, p.pend, l, copies[..], out[..], cap);
    q := p;
    if copies[l].pending {
      q := PayLane(s, dist, copies, out, page, l, c, cap, p);
    } else {
      TrackPass(p.tokens, p.pend, l, copies[..], out[..], cap);
    }
  }

  /** One lane of the drain: it only pays what it owes. */
  method DrainLane(s: GDeflateSchedule, litlen: GDeflateHuffTable, dist: GDeflateHuffTable, copies: array<DeferredCopy>,
                   out: array<byte>, page: seq<byte>, l: nat, ghost outPos: nat, ghost cap: nat, ghost c: Codes, ghost p: Parse)
    returns (ghost q: Parse)
    requires l < NUM_STREAMS && LaneReady(s, copies, out, page, l, outPos, cap, p)
    requires TablesFor(litlen, dist, c) && Apart(s, litlen, dist, copies, out)
    modifies s, s.bitbuf, s.bitsleft, copies, out
    ensures s.Valid(page) && TablesFor(litlen, dist, c)
    ensures DrainStep(page, c, cap, p, l) == if s.failed then Refused(s.reject) else Ok(q)
    ensures !s.failed ==> LaneReady(s, copies, out, page, NextLane(l), outPos, cap, q)
    ensures forall i :: cap <= i < out.Length ==> out[i] == old(out[i])
  {
    hide Refill, Ready, DrainStep, Retire, Live, Linked, Total, Low, Tracks, OutLen, CodesOk, IsCode, Verdict, BitsOf, LaneBits, LanesTidy, Pow2, GDeflateHuffTable.Built, GDeflateHuffTable.Shaped;
    LiveFacts(page, cap, p);
    s.Select(page, l);
    q := PayIfOwing(s, litlen, dist, copies, out, page, l, c, cap, p);
    if s.failed {
      StepRefuses(page, c, cap, p, l, s.reject);
    } else {
      DrainStepDone(page, c, cap, p, l, q);
      s.Advance(page);
      q := q.(st := s.Abs());
    }
  }

  /** Lanes 0 up to the one that ended the block each take the drain step the
      reading gives them, which leaves no reservation standing. */
  method DrainRound(s: GDeflateSchedule, litlen: GDeflateHuffTable, dist: GDeflateHuffTable, copies: array<DeferredCopy>,
                    out: array<byte>, page: seq<byte>, eobLane: nat, ghost outPos: nat, ghost cap: nat, ghost c: Codes, ghost p: Parse,
                    ghost goal: Result<Parse>)
    returns (ghost q: Parse)
    requires eobLane < NUM_STREAMS && LaneReady(s, copies, out, page, 0, outPos, cap, p)
    requires TablesFor(litlen, dist, c) && Apart(s, litlen, dist, copies, out)
    requires OnlyNextOwe(p.pend, 0, eobLane) && goal == Drain(page, c, cap, p, 0, eobLane)
    modifies s, s.bitbuf, s.bitsleft, copies, out
    ensures s.Valid(page) && TablesFor(litlen, dist, c)
    ensures goal == if s.failed then Refused(s.reject) else Ok(q)
    ensures !s.failed ==> LaneReady(s, copies, out, page, eobLane, outPos, cap, q)
    ensures forall i :: cap <= i < out.Length ==> out[i] == old(out[i])
  {
    hide Linked, OnlyNextOwe, Drain, DrainStep, Tracks, OutLen, PendCount, CodesOk, BitsOf, LaneBits, LanesTidy, GDeflateHuffTable.Built, GDeflateHuffTable.Shaped, Verdict;
    q := p;
    for l := 0 to eobLane
      invariant s.Valid(page) && !s.failed && TablesFor(litlen, dist, c)
      invariant LaneReady(s, copies, out, page, l, outPos, cap, q)
      invariant OnlyNextOwe(q.pend, l, eobLane - l) && goal == Drain(page, c, cap, q, l, eobLane - l)
      invariant forall i :: cap <= i < out.Length ==> out[i] == old(out[i])
    {
      ghost var was := q;
      DrainUnfold(page, c, cap, was, l, eobLane - l);
      q := DrainLane(s, litlen, dist, copies, out, page, l, outPos, cap, c, was);
      if s.failed {
        return;
      }
    }
    DrainEnds(page, c, cap, q, eobLane);
  }

  lemma DrainEnds(page: seq<byte>, c: Codes, cap: nat, p: Parse, l: nat)
    requires CodesOk(c) && Live(page, cap, p) && l < NUM_STREAMS && OnlyNextOwe(p.pend, l, 0)
    ensures Drain(page, c, cap, p, l, 0) == Ok(p)
  {
  }

  function RoundFuel(cap: nat): nat {
    if cap > (UINT64_MAX - NUM_STREAMS) / 2 - 1 then UINT64_MAX else 2 * (cap + 1) + NUM_STREAMS
  }

  lemma RoundFuelOutlasts(cap: nat, round: nat)
    requires NUM_STREAMS * round <= cap <= UINT64_MAX
    ensures round < RoundFuel(cap)
  {
  }

  /** One round, and the drain behind it if it ended the block. */
  method RoundAndDrain(s: GDeflateSchedule, litlen: GDeflateHuffTable, dist: GDeflateHuffTable, copies: array<DeferredCopy>,
                       out: array<byte>, page: seq<byte>, outPos: nat, cap: nat, ghost c: Codes, ghost p: Parse, ghost goal: Result<Parse>)
    returns (outPos': nat, ended: bool, ghost q: Parse, ghost at: nat)
    requires LaneReady(s, copies, out, page, 0, outPos, cap, p)
    requires TablesFor(litlen, dist, c) && Apart(s, litlen, dist, copies, out)
    requires goal == Symbols(page, c, cap, p, 0)
    modifies s, s.bitbuf, s.bitsleft, copies, out
    ensures s.Valid(page) && TablesFor(litlen, dist, c)
    ensures s.failed ==> goal == Refused(s.reject) && Steps(page, c, cap, p, 0) < NUM_STREAMS
    ensures !s.failed ==> at < NUM_STREAMS && LaneReady(s, copies, out, page, at, outPos', cap, q)
    ensures !s.failed && ended ==> goal == Ok(q) && Steps(page, c, cap, p, 0) == at
    ensures !s.failed && !ended ==>
              && at == 0 && goal == Symbols(page, c, cap, q, 0) && Budget(cap, q) + NUM_STREAMS <= Budget(cap, p)
              && Steps(page, c, cap, p, 0) == NUM_STREAMS + Steps(page, c, cap, q, 0)
    ensures forall i :: cap <= i < out.Length ==> out[i] == old(out[i])
  {
    hide Linked, Total, Ready, Budget, OnlyNextOwe, Symbols, Steps, Drain, Tracks, OutLen, PendCount, CodesOk, BitsOf, LaneBits, LanesTidy, GDeflateHuffTable.Built, GDeflateHuffTable.Shaped, Verdict;
    at := 0;
    var eobLane;
    outPos', eobLane, q := SymbolRound(s, litlen, dist, copies, out, page, outPos, cap, c, p, goal);
    ended := eobLane != NO_LANE;
    if !s.failed && ended {
      at := eobLane;
      q := DrainRound(s, litlen, dist, copies, out, page, eobLane, outPos', cap, c, q, goal);
    }
  }

  /** The rounds of a coded block and its drain. `rounds` of them are whole: they
      end before the block does, or before the step that is refused, and they are
      as many as the steps until then fill. Each spends 32 of the budget, which
      starts at no more than the capacity, so the round cap is never the reason
      they stop. */
  method SymbolRounds(s: GDeflateSchedule, litlen: GDeflateHuffTable, dist: GDeflateHuffTable, copies: array<DeferredCopy>,
                      out: array<byte>, page: seq<byte>, outPos: nat, cap: nat, ghost c: Codes, ghost p: Parse)
    returns (outPos': nat, rounds: nat, ghost q: Parse, ghost at: nat)
    requires LaneReady(s, copies, out, page, 0, outPos, cap, p) && cap <= UINT64_MAX
    requires TablesFor(litlen, dist, c) && Apart(s, litlen, dist, copies, out)
    requires Budget(cap, p) <= cap
    modifies s, s.bitbuf, s.bitsleft, copies, out
    ensures s.Valid(page) && TablesFor(litlen, dist, c)
    ensures Symbols(page, c, cap, p, 0) == if s.failed then Refused(s.reject) else Ok(q)
    ensures !s.failed ==> at < NUM_STREAMS && LaneReady(s, copies, out, page, at, outPos', cap, q)
    ensures NUM_STREAMS * rounds <= Steps(page, c, cap, p, 0) < NUM_STREAMS * (rounds + 1) && NUM_STREAMS * rounds <= cap
    ensures !s.failed ==> Steps(page, c, cap, p, 0) == NUM_STREAMS * rounds + at
    ensures forall i :: cap <= i < out.Length ==> out[i] == old(out[i])
  {
    hide Linked, Total, Ready, Budget, OnlyNextOwe, Symbols, Steps, Drain, Tracks, OutLen, PendCount, CodesOk, BitsOf, LaneBits, LanesTidy, GDeflateHuffTable.Built, GDeflateHuffTable.Shaped, Verdict;
    ghost var goal := Symbols(page, c, cap, p, 0);
    var roundFuel := RoundFuel(cap);
    var round: nat, blockDone := 0, false;
    RoundFuelOutlasts(cap, round);
    outPos', rounds, q, at := outPos, 0, p, 0;
    while round < roundFuel && !blockDone
      invariant s.Valid(page) && !s.failed && TablesFor(litlen, dist, c)
      invariant at < NUM_STREAMS && LaneReady(s, copies, out, page, at, outPos', cap, q)
      invariant !blockDone ==> at == 0 && goal == Symbols(page, c, cap, q, 0) && Budget(cap, q) + NUM_STREAMS * round <= cap
      invariant blockDone ==> goal == Ok(q) && NUM_STREAMS * rounds <= cap
      invariant Steps(page, c, cap, p, 0) == if blockDone then NUM_STREAMS * rounds + at else NUM_STREAMS * round + Steps(page, c, cap, q, 0)
      invariant forall i :: cap <= i < out.Length ==> out[i] == old(out[i])
      invariant blockDone || round < roundFuel
      decreases roundFuel - round
    {
      rounds := round;
      outPos', blockDone, q, at := RoundAndDrain(s, litlen, dist, copies, out, page, outPos', cap, c, q, goal);
      if s.failed {
        return;
      }
      round := round + 1;
      if !blockDone {
        RoundFuelOutlasts(cap, round);
      }
    }
    if !blockDone {
      // The header refuses with RoundFuelExhausted here.
      assert false;
    }
  }

  // ----- stored blocks -----

  lemma StoredUnfold(page: seq<byte>, st: Streams, tokens: seq<Token>, l: nat, n: nat, b: byte)
    requires AtBlock(page, st) && l < NUM_STREAMS && Settled(tokens) && n >= 1 && b == Field(st, l, 8)
    ensures var after := Refill(page, Consume(st, l, 8), l);
            && (after.Ok? ==> AtBlock(page, after.value)) && Settled(tokens + [Literal(b)])
            && StoredBytes(page, st, tokens, l, n)
               == if after.Refused? then Refused(after.why)
                  else StoredBytes(page, after.value, tokens + [Literal(b)], NextLane(l), n - 1)
  {
    if Refill(page, Consume(st, l, 8), l).Ok? {
      RefillKeeps(page, Consume(st, l, 8), l);
    }
  }

  lemma LiteralAgrees(out: seq<byte>, tokens: seq<Token>, b: byte)
    requires Agrees(out, tokens) && OutLen(tokens) < |out|
    ensures Agrees(out[OutLen(tokens) := b], tokens + [Literal(b)]) && OutLen(tokens + [Literal(b)]) == OutLen(tokens) + 1
  {
    AppendStarts(tokens, Literal(b));
    assert out[OutLen(tokens) := b][..OutLen(tokens)] == out[..OutLen(tokens)];
    AppendAgrees(out, tokens, out[OutLen(tokens) := b], Literal(b));
  }

  lemma FieldIsByte(page: seq<byte>, st: Streams, l: nat)
    requires AtBlock(page, st) && l < NUM_STREAMS
    ensures Field(st, l, 8) < 0x100
  {
    ByteField(st.lanes[l][..8]);
  }

  /** One stored byte on its lane, and the word the lane is due behind it. */
  method StoredLane(s: GDeflateSchedule, out: array<byte>, page: seq<byte>, l: nat, pos: nat, ghost tokens: seq<Token>, ghost n: nat)
    returns (ghost tokens': seq<Token>)
    requires s.Valid(page) && !s.failed && AtBlock(page, s.Abs()) && l < NUM_STREAMS && n >= 1
    requires Settled(tokens) && Agrees(out[..], tokens) && pos == OutLen(tokens) < out.Length
    modifies s, s.bitbuf, s.bitsleft, out
    ensures s.Valid(page)
    ensures StoredBytes(page, old(s.Abs()), tokens, l, n)
         == if s.failed then Refused(s.reject) else StoredBytesFrom(page, s.Abs(), tokens', NextLane(l), n - 1)
    ensures !s.failed ==> AtBlock(page, s.Abs()) && Settled(tokens') && Agrees(out[..], tokens') && OutLen(tokens') == pos + 1
    ensures forall i :: pos < i < out.Length ==> out[i] == old(out[i])
  {
    hide StoredBytes, Low, BitsOf, LaneBits, LanesTidy, OutLen, Agrees, Word;
    ghost var st, out0 := s.Abs(), out[..];
    FieldIsByte(page, st, l);
    StoredUnfold(page, st, tokens, l, n, Field(st, l, 8));
    s.Select(page, l);
    var b := s.Pop(page, 8);
    LiteralAgrees(out0, tokens, b);
    out[pos] := b;
    assert out[..] == out0[pos := b];
    tokens' := tokens + [Literal(b)];
    s.Advance(page);
  }

  ghost function StoredBytesFrom(page: seq<byte>, st: Streams, tokens: seq<Token>, l: nat, n: nat): Result<Body>
    requires l < NUM_STREAMS
  {
    if AtBlock(page, st) && Settled(tokens) then StoredBytes(page, st, tokens, l, n) else Refused(NoReject)
  }

  /** One round of a stored block: a byte a lane for `batch` lanes. */
  method StoredRound(s: GDeflateSchedule, out: array<byte>, page: seq<byte>, outPos: nat, batch: nat, ghost left: nat,
                     ghost tokens: seq<Token>)
    returns (ghost tokens': seq<Token>)
    requires s.Valid(page) && !s.failed && AtBlock(page, s.Abs()) && (out as object) !in s.Repr()
    requires Settled(tokens) && Agrees(out[..], tokens) && outPos == OutLen(tokens) && outPos + batch <= out.Length
    requires batch <= NUM_STREAMS && batch <= left
    modifies s, s.bitbuf, s.bitsleft, out
    ensures s.Valid(page)
    ensures StoredBytes(page, old(s.Abs()), tokens, 0, left)
         == if s.failed then Refused(s.reject) else StoredBytesFrom(page, s.Abs(), tokens', LaneAfter(batch), left - batch)
    ensures !s.failed ==>
              AtBlock(page, s.Abs()) && Settled(tokens') && Agrees(out[..], tokens') && OutLen(tokens') == outPos + batch
    ensures forall i :: outPos + batch <= i < out.Length ==> out[i] == old(out[i])
  {
    hide StoredBytes, AtBlock, BitsOf, LaneBits, LanesTidy, OutLen, Agrees, Settled, Word;
    ghost var goal := StoredBytes(page, s.Abs(), tokens, 0, left);
    tokens' := tokens;
    for l := 0 to batch
      invariant s.Valid(page) && !s.failed && AtBlock(page, s.Abs())
      invariant Settled(tokens') && Agrees(out[..], tokens') && outPos + l == OutLen(tokens')
      invariant goal == StoredBytes(page, s.Abs(), tokens', LaneAfter(l), left - l)
      invariant forall i :: outPos + batch <= i < out.Length ==> out[i] == old(out[i])
    {
      tokens' := StoredLane(s, out, page, l, outPos + l, tokens', left - l);
      if s.failed {
        return;
      }
    }
  }

  /** Thirty-two bytes a round, lane by lane, until the block has them all. */
  method StoredRounds(s: GDeflateSchedule, out: array<byte>, page: seq<byte>, outPos: nat, len: nat, ghost tokens: seq<Token>)
    returns (outPos': nat, ghost tokens': seq<Token>)
    requires s.Valid(page) && !s.failed && AtBlock(page, s.Abs()) && (out as object) !in s.Repr()
    requires Settled(tokens) && Agrees(out[..], tokens) && outPos == OutLen(tokens) && outPos + len <= out.Length
    modifies s, s.bitbuf, s.bitsleft, out
    ensures s.Valid(page)
    ensures StoredBytes(page, old(s.Abs()), tokens, 0, len) == if s.failed then Refused(s.reject) else Ok(Body(s.Abs(), tokens'))
    ensures !s.failed ==>
              AtBlock(page, s.Abs()) && Settled(tokens') && Agrees(out[..], tokens') && OutLen(tokens') == outPos' == outPos + len
    ensures forall i :: outPos + len <= i < out.Length ==> out[i] == old(out[i])
  {
    hide StoredBytes, BitsOf, LaneBits, LanesTidy, OutLen, Agrees, Word;
    ghost var goal := StoredBytes(page, s.Abs(), tokens, 0, len);
    var done := 0;
    outPos', tokens' := outPos, tokens;
    StoredEnds(page, s.Abs(), tokens, 0);
    while done < len
      invariant done <= len && outPos' == outPos + done
      invariant s.Valid(page) && !s.failed && AtBlock(page, s.Abs())
      invariant Settled(tokens') && Agrees(out[..], tokens') && outPos' == OutLen(tokens')
      invariant done < len ==> goal == StoredBytes(page, s.Abs(), tokens', 0, len - done)
      invariant done == len ==> goal == Ok(Body(s.Abs(), tokens'))
      invariant forall i :: outPos + len <= i < out.Length ==> out[i] == old(out[i])
    {
      var batch := if len - done < NUM_STREAMS then len - done else NUM_STREAMS;
      tokens' := StoredRound(s, out, page, outPos', batch, len - done, tokens');
      if s.failed {
        return;
      }
      outPos' := outPos' + batch;
      done := done + batch;
      StoredEnds(page, s.Abs(), tokens', LaneAfter(batch));
    }
  }

  lemma StoredEnds(page: seq<byte>, st: Streams, tokens: seq<Token>, l: nat)
    requires AtBlock(page, st) && Settled(tokens) && l < NUM_STREAMS
    ensures StoredBytes(page, st, tokens, l, 0) == Ok(Body(st, tokens))
  {
  }

  /** A stored block that would pass the tile, or that declares more than is left
      of the page, is refused for that; any other yields its bytes. */
  method StoredBlockRounds(s: GDeflateSchedule, out: array<byte>, page: seq<byte>, outPos: nat, cap: nat, ghost tokens: seq<Token>)
    returns (outPos': nat, ghost tokens': seq<Token>)
    requires s.Valid(page) && !s.failed && Ready(s.Abs()) && (out as object) !in s.Repr()
    requires Settled(tokens) && Agrees(out[..], tokens) && outPos == OutLen(tokens) <= cap <= out.Length
    modifies s, s.bitbuf, s.bitsleft, out
    ensures s.Valid(page)
    ensures StoredBlock(page, cap, old(s.Abs()), tokens) == if s.failed then Refused(s.reject) else Ok(Body(s.Abs(), tokens'))
    ensures !s.failed ==>
              AtBlock(page, s.Abs()) && Settled(tokens') && Agrees(out[..], tokens') && outPos <= OutLen(tokens') == outPos' <= cap
    ensures forall i :: cap <= i < out.Length ==> out[i] == old(out[i])
  {
    hide StoredBytes, Low, BitsOf, LaneBits, LanesTidy, OutLen, Agrees, Word, Total;
    outPos', tokens' := outPos, tokens;
    ghost var st := s.Abs();
    var buffered := s.BufferedBits(page);
    var reachable := (s.wordCount - s.cursor) * (BITS_PER_PACKET / 8) + (buffered + 7) / 8;
    s.Select(page, 0);
    var len := s.Pop(page, 16);
    if len > cap - outPos {
      s.Refuse(StoredPastCap);
      return;
    }
    if len > reachable {
      s.Refuse(StoredPastPage);
      return;
    }
    outPos', tokens' := StoredRounds(s, out, page, outPos, len, tokens);
  }

  // ----- blocks over the team -----

  ghost predicate NoneOutstanding(copies: seq<DeferredCopy>) {
    |copies| == NUM_STREAMS && forall l :: 0 <= l < NUM_STREAMS ==> !copies[l].pending
  }

  /** Between blocks: the output agrees with settled tokens, and no reservation
      has survived. */
  ghost predicate BlockReady(t: GDeflateHostTeam, page: seq<byte>, out: array<byte>, outPos: nat, cap: nat, tokens: seq<Token>)
    reads t.s, t.s.bitbuf, t.s.bitsleft, t.copies, out
  {
    && t.Valid(page) && !t.s.failed && AtBlock(page, t.s.Abs())
    && (out as object) !in t.Repr() && cap <= out.Length && cap <= UINT64_MAX
    && Settled(tokens) && Agrees(out[..], tokens) && outPos == OutLen(tokens) <= cap
    && NoneOutstanding(t.copies[..])
  }

  function Fresh(st: Streams, tokens: seq<Token>): Parse {
    Parse(st, tokens, Repeat(Idle, NUM_STREAMS))
  }

  lemma {:induction false} NonePending(n: nat)
    ensures PendCount(Repeat(Idle, n)) == 0
  {
    if n > 0 {
      NonePending(n - 1);
      assert Repeat(Idle, n)[..n - 1] == Repeat(Idle, n - 1);
    }
  }

  lemma FreshTracks(page: seq<byte>, cap: nat, st: Streams, tokens: seq<Token>, copies: seq<DeferredCopy>, out: seq<byte>)
    requires Ready(st) && st.cursor <= WordCount(page) && Settled(tokens) && Agrees(out, tokens)
    requires OutLen(tokens) <= cap <= |out| && NoneOutstanding(copies)
    ensures Tracks(tokens, Fresh(st, tokens).pend, 0, copies, out, cap)
    ensures Live(page, cap, Fresh(st, tokens)) && Budget(cap, Fresh(st, tokens)) <= cap
  {
    NonePending(NUM_STREAMS);
  }

  lemma SettledOwesNothing(tokens: seq<Token>, pend: seq<Pending>, l: nat, copies: seq<DeferredCopy>, out: seq<byte>, cap: nat)
    requires Tracks(tokens, pend, l, copies, out, cap) && Settled(tokens)
    ensures NoneOutstanding(copies) && Agrees(out, tokens) && OutLen(tokens) <= cap
  {
    assert forall i :: 0 <= i < NUM_STREAMS ==> pend[i].Idle?;
  }

  /** A block whose symbols are coded, from its tables to the end of its drain. */
  method CodedBlockRounds(t: GDeflateHostTeam, page: seq<byte>, out: array<byte>, outPos: nat, cap: nat,
                          ghost c: Codes, ghost tokens: seq<Token>)
    returns (outPos': nat, ghost tokens': seq<Token>)
    requires BlockReady(t, page, out, outPos, cap, tokens) && Ready(t.s.Abs())
    requires CodesOk(c) && t.litlen.Built(c.litlen) && t.dist.Built(c.dist)
    modifies t.s, t.s.bitbuf, t.s.bitsleft, t.copies, out
    ensures t.Valid(page)
    ensures CodedBlock(page, cap, old(t.s.Abs()), tokens, c) == if t.s.failed then Refused(t.s.reject) else Ok(Body(t.s.Abs(), tokens'))
    ensures !t.s.failed ==> BlockReady(t, page, out, outPos', cap, tokens')
    ensures forall i :: cap <= i < out.Length ==> out[i] == old(out[i])
  {
    hide Symbols, Tracks, OutLen, PendCount, CodesOk, BitsOf, LaneBits, LanesTidy, GDeflateHuffTable.Built, GDeflateHuffTable.Shaped, Verdict, Budget, Agrees, NoneOutstanding;
    t.s.Reset(page);
    ghost var p := Fresh(t.s.Abs(), tokens);
    FreshTracks(page, cap, t.s.Abs(), tokens, t.copies[..], out[..]);
    ghost var q, at;
    var rounds;
    outPos', rounds, q, at := SymbolRounds(t.s, t.litlen, t.dist, t.copies, out, page, outPos, cap, c, p);
    tokens' := q.tokens;
    if t.s.failed {
      return;
    }
    SettledOwesNothing(q.tokens, q.pend, at, t.copies[..], out[..], cap);
  }

  // ----- the three block types -----

  /** Afterwards both tables are those of the fixed vectors: neither construction
      can refuse. */
  method StaticTables(t: GDeflateHostTeam, page: seq<byte>)
    requires t.Valid(page)
    modifies t.lens, t.litlen.Repr(), t.dist.Repr()
    ensures t.litlen.Built(STATIC_LITLEN) && t.dist.Built(STATIC_DIST)
  {
    hide GDeflateSchedule.Valid, Verdict, InRange, Kraft, GDeflateHuffTable.Built, GDeflateHuffTable.Shaped, Pow2, LaneBits, LanesTidy;
    for i := 0 to NUM_LITLEN_SYMS
      invariant forall j :: 0 <= j < i ==> t.lens[j] == STATIC_LITLEN[j]
    {
      t.lens[i] := if i < 144 then 8 else if i < 256 then 9 else if i < 280 then 7 else 8;
    }
    StaticCodesOk();
    StaticVerdicts();
    assert t.lens[..NUM_LITLEN_SYMS] == STATIC_LITLEN;
    var ok, why := t.litlen.BuildTable(t.lens[..NUM_LITLEN_SYMS]);
    for i := 0 to NUM_DIST_SYMS
      invariant t.litlen.Built(STATIC_LITLEN)
      invariant forall j :: 0 <= j < i ==> t.lens[NUM_LITLEN_SYMS + j] == STATIC_DIST[j]
    {
      t.lens[NUM_LITLEN_SYMS + i] := 5;
    }
    assert t.lens[NUM_LITLEN_SYMS..] == STATIC_DIST;
    ok, why := t.dist.BuildTable(t.lens[NUM_LITLEN_SYMS..]);
  }

  /** Neither static vector can be refused. */
  lemma StaticVerdicts()
    ensures Verdict(STATIC_LITLEN, NUM_LITLEN_SYMS, MAX_CODE_LEN) == Ok(CompleteTable)
    ensures Verdict(STATIC_DIST, NUM_DIST_SYMS, MAX_CODE_LEN) == Ok(CompleteTable)
  {
    StaticCodesOk();
  }

  /** Only tables, vectors and lanes move while a block's tables are read. */
  lemma StillReady(t: GDeflateHostTeam, page: seq<byte>, out: array<byte>, outPos: nat, cap: nat, tokens: seq<Token>, copies: seq<DeferredCopy>)
    requires t.Valid(page) && !t.s.failed && AtBlock(page, t.s.Abs())
    requires (out as object) !in t.Repr() && cap <= out.Length && cap <= UINT64_MAX
    requires Settled(tokens) && Agrees(out[..], tokens) && outPos == OutLen(tokens) <= cap
    requires t.copies[..] == copies && NoneOutstanding(copies)
    ensures BlockReady(t, page, out, outPos, cap, tokens)
  {
  }

  method StaticBlockRounds(t: GDeflateHostTeam, page: seq<byte>, out: array<byte>, outPos: nat, cap: nat, ghost tokens: seq<Token>)
    returns (outPos': nat, ghost tokens': seq<Token>)
    requires BlockReady(t, page, out, outPos, cap, tokens) && Ready(t.s.Abs())
    modifies t.Repr(), out
    ensures t.Valid(page)
    ensures BlockBody(page, cap, old(t.s.Abs()), tokens, Static) == if t.s.failed then Refused(t.s.reject) else Ok(Body(t.s.Abs(), tokens'))
    ensures !t.s.failed ==> BlockReady(t, page, out, outPos', cap, tokens')
    ensures forall i :: cap <= i < out.Length ==> out[i] == old(out[i])
  {
    hide CodedBlock, OutLen, Agrees, NoneOutstanding, BitsOf, LaneBits, LanesTidy, GDeflateHuffTable.Built, GDeflateHuffTable.Shaped, Verdict, Kraft, IsCode;
    ghost var st, copies, out0 := t.s.Abs(), t.copies[..], out[..];
    StaticTables(t, page);
    assert t.s.Abs() == st && t.copies[..] == copies && out[..] == out0;
    StillReady(t, page, out, outPos, cap, tokens, copies);
    outPos', tokens' := CodedBlockRounds(t, page, out, outPos, cap, StaticCodes(), tokens);
  }

  method DynamicBlockRounds(t: GDeflateHostTeam, page: seq<byte>, out: array<byte>, outPos: nat, cap: nat, ghost tokens: seq<Token>)
    returns (outPos': nat, ghost tokens': seq<Token>)
    requires BlockReady(t, page, out, outPos, cap, tokens) && Ready(t.s.Abs())
    modifies t.Repr(), out
    ensures t.Valid(page)
    ensures BlockBody(page, cap, old(t.s.Abs()), tokens, DynamicHuffman) == if t.s.failed then Refused(t.s.reject) else Ok(Body(t.s.Abs(), tokens'))
    ensures !t.s.failed ==> BlockReady(t, page, out, outPos', cap, tokens')
    ensures forall i :: cap <= i < out.Length ==> out[i] == old(out[i])
  {
    hide CodedBlock, ReadDynamic, EnsuredDynamic, OutLen, Agrees, NoneOutstanding, BitsOf, LaneBits, LanesTidy, GDeflateHuffTable.Built, GDeflateHuffTable.Shaped, Verdict, Kraft, IsCode;
    outPos', tokens' := outPos, tokens;
    ReadyIsEnsured(page, t.s.Abs());
    ghost var copies, out0 := t.copies[..], out[..];
    var read := t.ReadDynamicTableRounds(page);
    if !read {
      return;
    }
    assert t.copies[..] == copies && out[..] == out0;
    StillReady(t, page, out, outPos, cap, tokens, copies);
    ghost var v := t.HeldVectors();
    outPos', tokens' := CodedBlockRounds(t, page, out, outPos, cap, Codes(v.litlen, v.dist), tokens);
  }

  method BlockRounds(t: GDeflateHostTeam, page: seq<byte>, out: array<byte>, outPos: nat, cap: nat, kind: BlockType, ghost tokens: seq<Token>)
    returns (outPos': nat, ghost tokens': seq<Token>)
    requires BlockReady(t, page, out, outPos, cap, tokens) && Ready(t.s.Abs())
    modifies t.Repr(), out
    ensures t.Valid(page)
    ensures BlockBody(page, cap, old(t.s.Abs()), tokens, kind) == if t.s.failed then Refused(t.s.reject) else Ok(Body(t.s.Abs(), tokens'))
    ensures !t.s.failed ==> BlockReady(t, page, out, outPos', cap, tokens') && outPos <= outPos'
    ensures forall i :: cap <= i < out.Length ==> out[i] == old(out[i])
  {
    hide CodedBlock, ReadDynamic, StoredBlock, OutLen, Agrees, NoneOutstanding, BitsOf, LaneBits, LanesTidy;
    match kind {
      case Stored =>
        ghost var copies := t.copies[..];
        outPos', tokens' := StoredBlockRounds(t.s, out, page, outPos, cap, tokens);
        if !t.s.failed {
          assert t.copies[..] == copies;
          StillReady(t, page, out, outPos', cap, tokens', copies);
        }
      case Static =>
        outPos', tokens' := StaticBlockRounds(t, page, out, outPos, cap, tokens);
      case DynamicHuffman =>
        outPos', tokens' := DynamicBlockRounds(t, page, out, outPos, cap, tokens);
    }
  }

  // ----- the page -----

  /** Blocks by type, and the output each type accounts for. */
  datatype Census = Census(blocks: nat, typeBlocks: seq<nat>, typeBytes: seq<nat>)

  function TypeIndex(kind: BlockType): nat {
    match kind
    case Stored => 0
    case Static => 1
    case DynamicHuffman => 2
  }

  function Count(counts: Census, kind: BlockType, bytes: nat): (c: Census)
    requires |counts.typeBlocks| == 3 && |counts.typeBytes| == 3
    ensures |c.typeBlocks| == 3 && |c.typeBytes| == 3
  {
    var k := TypeIndex(kind);
    Census(counts.blocks + 1, counts.typeBlocks[k := counts.typeBlocks[k] + 1], counts.typeBytes[k := counts.typeBytes[k] + bytes])
  }

  function CensusOf(blocks: seq<Block>): (c: Census)
    ensures |c.typeBlocks| == 3 && |c.typeBytes| == 3
  {
    if blocks == [] then Census(0, [0, 0, 0], [0, 0, 0])
    else
      var b := blocks[|blocks| - 1];
      Count(CensusOf(blocks[..|blocks| - 1]), b.kind, b.bytes)
  }

  /** The blocks of one type, in order. */
  function OfKind(blocks: seq<Block>, kind: BlockType): seq<Block> {
    if blocks == [] then []
    else
      var b := blocks[|blocks| - 1];
      OfKind(blocks[..|blocks| - 1], kind) + if b.kind == kind then [b] else []
  }

  lemma BytesOfOneMore(blocks: seq<Block>, b: Block)
    ensures BytesOf(blocks + [b]) == BytesOf(blocks) + b.bytes
  {
    assert (blocks + [b])[..|blocks|] == blocks;
  }

  lemma OfKindOneMore(blocks: seq<Block>, kind: BlockType)
    requires blocks != []
    ensures var n := |blocks| - 1;
            && |OfKind(blocks, kind)| == |OfKind(blocks[..n], kind)| + (if blocks[n].kind == kind then 1 else 0)
            && BytesOf(OfKind(blocks, kind)) == BytesOf(OfKind(blocks[..n], kind)) + if blocks[n].kind == kind then blocks[n].bytes else 0
  {
    hide BytesOf;
    var n := |blocks| - 1;
    BytesOfOneMore(OfKind(blocks[..n], kind), blocks[n]);
    assert OfKind(blocks[..n], kind) + [] == OfKind(blocks[..n], kind);
  }

  /** Type 0 is stored, 1 fixed and 2 dynamic: each has its own count of blocks and
      of their bytes, and the counts add up to the whole. */
  lemma {:induction false} CensusAccounts(blocks: seq<Block>)
    ensures var c := CensusOf(blocks);
            && c.typeBlocks == [|OfKind(blocks, Stored)|, |OfKind(blocks, Static)|, |OfKind(blocks, DynamicHuffman)|]
            && c.typeBytes == [BytesOf(OfKind(blocks, Stored)), BytesOf(OfKind(blocks, Static)), BytesOf(OfKind(blocks, DynamicHuffman))]
            && c.blocks == |blocks| == c.typeBlocks[0] + c.typeBlocks[1] + c.typeBlocks[2]
            && BytesOf(blocks) == c.typeBytes[0] + c.typeBytes[1] + c.typeBytes[2]
  {
    if blocks != [] {
      hide OfKind;
      CensusAccounts(blocks[..|blocks| - 1]);
      OfKindOneMore(blocks, Stored);
      OfKindOneMore(blocks, Static);
      OfKindOneMore(blocks, DynamicHuffman);
    }
  }

  /** BFINAL and BTYPE on lane 0, and the word it is due behind them. */
  method HeaderRound(s: GDeflateSchedule, page: seq<byte>) returns (final: bool, kind: BlockType)
    requires s.Valid(page) && !s.failed && AtBlock(page, s.Abs())
    modifies s, s.bitbuf, s.bitsleft
    ensures s.Valid(page)
    ensures ReadHeader(page, old(s.Abs())) == if s.failed then Refused(s.reject) else Ok(Header(final, kind, s.Abs()))
  {
    hide Low, BitsOf, LaneBits, LanesTidy, Word, WordAt;
    HeaderByPops(page, s.Abs());
    s.Reset(page);
    var bfinal := s.Pop(page, 1);
    var btype := s.Pop(page, 2);
    final, kind := bfinal != 0, if btype == 0 then Stored else if btype == 1 then Static else DynamicHuffman;
    EnsureLane0(s, page);
    if s.failed {
      return;
    }
    if btype == 3 {
      s.Refuse(BlockTypeReserved);
    }
  }

  lemma HeaderByPops(page: seq<byte>, st: Streams)
    requires AtBlock(page, st)
    ensures var st1 := Consume(st, 0, 1);
            && Consume(st1, 0, 2) == Consume(st, 0, 3)
            && (Field(st, 0, 1) != 0 <==> st.lanes[0][0])
            && Field(st1, 0, 2) == Low(st.lanes[0][1..3]) <= 3
  {
    var bits := st.lanes[0];
    ConsumeTwice(st, 0, 1, 2);
    assert bits[..1] == [bits[0]];
    assert Low([bits[0]]) == (if bits[0] then 1 else 0) + 2 * Low([]);
    assert bits[1..3] == [bits[1], bits[2]];
    TwoBits(bits[1], bits[2]);
  }

  /** The block cap, in 64-bit arithmetic. */
  function BlockFuel(wordCount: nat): nat {
    ((wordCount + 1) * (MAX_LANE_BITS / MIN_MATCH_LEN)) % 0x1_0000_0000_0000_0000
  }

  /** Whether that product wraps: only a page of more than 3.5e18 bytes. */
  predicate BlockFuelWraps(page: seq<byte>) {
    (WordCount(page) + 1) * (MAX_LANE_BITS / MIN_MATCH_LEN) > UINT64_MAX
  }

  lemma PrimedHoldsPage(page: seq<byte>)
    requires Primed(page).Ok?
    ensures AtBlock(page, Primed(page).value) && Remaining(page, Primed(page).value) == BITS_PER_PACKET * WordCount(page)
  {
    PrimedConserves(page);
    var h := History(seq(NUM_STREAMS, i => i), seq(NUM_STREAMS, _ => []));
    BitsAreConserved(page, Primed(page).value, h);
    TotalOfEmpty(NUM_STREAMS);
  }

  lemma CensusStep(blocks: seq<Block>, b: Block)
    ensures CensusOf(blocks + [b]) == Count(CensusOf(blocks), b.kind, b.bytes)
  {
    assert (blocks + [b])[..|blocks|] == blocks;
  }

  /** One block of the page, and its line of the census. */
  method BlockTurn(t: GDeflateHostTeam, page: seq<byte>, out: array<byte>, outPos: nat, cap: nat, counts: Census,
                   ghost tokens: seq<Token>, ghost blocks: seq<Block>)
    returns (final: bool, outPos': nat, counts': Census, ghost tokens': seq<Token>, ghost blocks': seq<Block>)
    requires BlockReady(t, page, out, outPos, cap, tokens) && BytesOf(blocks) == OutLen(tokens)
    requires counts == CensusOf(blocks)
    modifies t.Repr(), out
    ensures t.Valid(page)
    ensures OneBlock(page, cap, Body(old(t.s.Abs()), tokens), blocks)
         == if t.s.failed then Refused(t.s.reject) else Ok(Progress(final, Body(t.s.Abs(), tokens'), blocks'))
    ensures !t.s.failed ==>
              && BlockReady(t, page, out, outPos', cap, tokens') && BytesOf(blocks') == OutLen(tokens')
              && counts' == CensusOf(blocks')
    ensures forall i :: cap <= i < out.Length ==> out[i] == old(out[i])
  {
    hide BlockBody, ReadHeader, OutLen, Agrees, NoneOutstanding, BitsOf, LaneBits, LanesTidy, Word, Total, Remaining, CensusOf, BytesOf;
    outPos', counts', tokens', blocks' := outPos, counts, tokens, blocks;
    ghost var copies, out0 := t.copies[..], out[..];
    var kind;
    final, kind := HeaderRound(t.s, page);
    if t.s.failed {
      return;
    }
    assert t.copies[..] == copies && out[..] == out0;
    StillReady(t, page, out, outPos, cap, tokens, copies);
    outPos', tokens' := BlockRounds(t, page, out, outPos, cap, kind, tokens);
    if t.s.failed {
      return;
    }
    counts' := Count(counts, kind, outPos' - outPos);
    CensusStep(blocks, Block(kind, outPos' - outPos));
    blocks' := blocks + [Block(kind, outPos' - outPos)];
  }

  lemma BlocksUnfold(page: seq<byte>, cap: nat, body: Body, blocks: seq<Block>)
    requires AtBlock(page, body.st) && Settled(body.tokens) && BytesOf(blocks) == OutLen(body.tokens) <= cap
    ensures var next := OneBlock(page, cap, body, blocks);
            Blocks(page, cap, body, blocks)
            == if next.Refused? then Refused(next.why)
               else if next.value.final then Ok(Page(next.value.body.tokens, next.value.blocks))
               else Blocks(page, cap, next.value.body, next.value.blocks)
    ensures var next := OneBlock(page, cap, body, blocks);
            BlocksRead(page, cap, body, blocks)
            == if next.Ok? && !next.value.final then 1 + BlocksRead(page, cap, next.value.body, next.value.blocks) else 1
  {
    hide OneBlock;
  }

  /** The block cap is more than the blocks of any page it does not wrap for. */
  lemma BlockFuelSuffices(page: seq<byte>, cap: nat)
    requires !BlockFuelWraps(page)
    ensures PageBlocks(page, cap) <= BlockFuel(WordCount(page))
  {
    hide Primed, Remaining, PageBlocks;
    if Primed(page).Ok? {
      PrimedHoldsPage(page);
    }
  }

  /** Blocks until the final one, or until the block cap. */
  method BlockTurns(t: GDeflateHostTeam, page: seq<byte>, out: array<byte>, cap: nat, wordCount: nat, ghost goal: Result<Page>,
                    ghost needed: nat)
    returns (outPos: nat, counts: Census, ghost tokens: seq<Token>, ghost blocks: seq<Block>)
    requires BlockReady(t, page, out, 0, cap, []) && wordCount == WordCount(page)
    requires BytesOf([]) == OutLen([]) && goal == Blocks(page, cap, Body(t.s.Abs(), []), [])
    requires needed == BlocksRead(page, cap, Body(t.s.Abs(), []), [])
    modifies t.Repr(), out
    ensures t.Valid(page)
    ensures t.s.failed ==> if needed > BlockFuel(wordCount) then t.s.reject == NoFinalBlock else goal == Refused(t.s.reject)
    ensures !t.s.failed ==>
              && needed <= BlockFuel(wordCount) && goal == Ok(Page(tokens, blocks)) && counts == CensusOf(blocks)
              && BlockReady(t, page, out, outPos, cap, tokens)
    ensures forall i :: cap <= i < out.Length ==> out[i] == old(out[i])
  {
    hide AtBlock, GDeflateHuffTable.Shaped, GDeflateSchedule.Shaped, Blocks, BlocksRead, OneBlock, OutLen, Agrees, NoneOutstanding, Settled, LaneBits, LanesTidy, Total, Remaining, CensusOf, BytesOf;
    PageBegins(out[..]);
    var finalBlock, block: nat := false, 0;
    outPos, counts, tokens, blocks := 0, Census(0, [0, 0, 0], [0, 0, 0]), [], [];
    var blockFuel := BlockFuel(wordCount);
    while block < blockFuel && !finalBlock
      invariant BlockReady(t, page, out, outPos, cap, tokens) && BytesOf(blocks) == OutLen(tokens)
      invariant counts == CensusOf(blocks) && block <= blockFuel
      invariant !finalBlock ==>
                  && goal == Blocks(page, cap, Body(t.s.Abs(), tokens), blocks)
                  && needed == block + BlocksRead(page, cap, Body(t.s.Abs(), tokens), blocks)
      invariant finalBlock ==> needed == block && goal == Ok(Page(tokens, blocks))
      invariant forall i :: cap <= i < out.Length ==> out[i] == old(out[i])
      decreases blockFuel - block
    {
      BlocksUnfold(page, cap, Body(t.s.Abs(), tokens), blocks);
      finalBlock, outPos, counts, tokens, blocks := BlockTurn(t, page, out, outPos, cap, counts, tokens, blocks);
      if t.s.failed {
        return;
      }
      block := block + 1;
    }
    if !finalBlock {
      t.s.Refuse(NoFinalBlock);
    }
  }

  /** Decode one page into `out`.

      An accepted page's output is the in-order execution of the tokens the page
      says, and a refused page is refused for the reason the page says, unless it
      has more blocks than the block cap. Only a page so long that the cap wraps
      in 64 bits can (`BlockFuelSuffices`); the round cap never shows. */
  method DecodePage(t: GDeflateHostTeam, page: seq<byte>, out: array<byte>, cap: nat)
    returns (ok: bool, outLen: nat, census: Census)
    requires t.Shaped() && (out as object) !in t.Repr() && cap <= out.Length && cap <= UINT64_MAX
    modifies t.Repr(), out
    ensures t.Valid(page) && ok == !t.s.failed
    ensures ok <==> ReadPage(page, cap).Ok? && PageBlocks(page, cap) <= BlockFuel(WordCount(page))
    ensures ok ==>
              var said := ReadPage(page, cap).value;
              && WellFormed(said.tokens) && outLen == OutLen(said.tokens) <= cap
              && out[..outLen] == Execute(said.tokens)
              && census == CensusOf(said.blocks)
    ensures !ok ==> if PageBlocks(page, cap) > BlockFuel(WordCount(page)) then t.s.reject == NoFinalBlock
                    else ReadPage(page, cap) == Refused(t.s.reject) && PageReject(t.s.reject)
    ensures !BlockFuelWraps(page) ==> PageBlocks(page, cap) <= BlockFuel(WordCount(page))
    ensures forall i :: cap <= i < out.Length ==> out[i] == old(out[i])
  {
    hide Blocks, BlocksRead, OutLen, Agrees, NoneOutstanding, BitsOf, LaneBits, LanesTidy, Word, Total, Remaining, Execute, CensusOf, BytesOf, BlockFuel, BlockFuelWraps;
    if !BlockFuelWraps(page) {
      BlockFuelSuffices(page, cap);
    }
    outLen, census := 0, Census(0, [0, 0, 0], [0, 0, 0]);
    ok := t.s.Init(page);
    if !ok {
      return;
    }
    t.ClearCopies();
    PrimedHoldsPage(page);
    PageBegins(out[..]);
    StillReady(t, page, out, 0, cap, [], t.copies[..]);
    ghost var tokens, blocks;
    var outPos, counts;
    outPos, counts, tokens, blocks := BlockTurns(t, page, out, cap, t.s.wordCount, Blocks(page, cap, Body(t.s.Abs(), []), []),
                                                 BlocksRead(page, cap, Body(t.s.Abs(), []), []));
    if t.s.failed {
      return false, 0, census;
    }
    AgreementIsExecution(out[..], tokens);
    assert out[..][..outPos] == out[..outPos];
    return true, outPos, counts;
  }

  lemma PageBegins(out: seq<byte>)
    ensures Settled([]) && Agrees(out, []) && OutLen([]) == 0 && BytesOf([]) == 0
    ensures CensusOf([]) == Census(0, [0, 0, 0], [0, 0, 0])
  {
  }
}
