/** How the words of a page are dealt to thirty-two lanes, and how lanes are read
    (src/gdeflate_schedule.h).

    The first half states what the schedule means. A lane is a queue of bits,
    reading takes bits from its front, and a refill appends the next word of
    the page to the one lane that is due it. The second half is the schedule
    itself, shifting and masking one machine word per lane. */
module Schedule {
  import opened Bits

  const NUM_STREAMS: nat := 32
  const BITS_PER_PACKET: nat := 32
  const LOW_WATERMARK_BITS: nat := 32
  const MAX_LANE_BITS: nat := LOW_WATERMARK_BITS - 1 + BITS_PER_PACKET
  const REGISTER_BITS: nat := 64
  const MAX_POP_BITS: nat := LOW_WATERMARK_BITS

  /** The reject ladder of the three GDeflate headers, in its order. */
  datatype Reject =
    | NoReject
    | PagePartialWord | PageBelowPrimingRound | RefillPastEnd
    | RemovePastLane | PopWidthPastFormat | PopPastLane
    | TablePastCapacity | TableLengthPastMax | TableOverSubscribed | TableIncomplete
    | EmptyTableUsed | CodewordNotInCode | RepeatNothingBefore | RepeatRunPastAlphabet
    | BlockTypeReserved | StoredPastCap | StoredPastPage | LiteralPastCap
    | MatchPastCap | MatchBeforeOutput | RoundFuelExhausted | NoFinalBlock

  datatype Result<+T> = Ok(value: T) | Refused(why: Reject)

  // ----- what the schedule means -----

  /** The bits every lane holds, next bit first, and the next word to hand out. */
  datatype Streams = Streams(lanes: seq<seq<bool>>, cursor: nat)

  function WordCount(page: seq<byte>): nat { |page| / 4 }

  function ByteAt(page: seq<byte>, i: nat): nat
    requires i < |page|
  {
    page[i]
  }

  /** Little-endian, byte by byte. */
  function WordAt(page: seq<byte>, word: nat): nat
    requires word < WordCount(page)
  {
    OrBytes(ByteAt(page, word * 4), ByteAt(page, word * 4 + 1), ByteAt(page, word * 4 + 2), ByteAt(page, word * 4 + 3))
  }

  function OrBytes(b0: nat, b1: nat, b2: nat, b3: nat): nat {
    BitOr(BitOr(BitOr(b0, Shl(b1, 8)), Shl(b2, 16)), Shl(b3, 24))
  }

  function Word(page: seq<byte>, word: nat): (b: seq<bool>)
    requires word < WordCount(page)
    ensures |b| == BITS_PER_PACKET
  {
    BitsOf(WordAt(page, word), BITS_PER_PACKET)
  }

  lemma OrTwo(a: nat, k: nat, b: nat, j: nat)
    requires a < Pow2(k) && b < Pow2(j)
    ensures BitOr(a, Shl(b, k)) == a + Shl(b, k) < Pow2(k + j)
  {
    OrAppends(a, k, b, j);
  }

  lemma OrFour(b0: nat, b1: nat, b2: nat, b3: nat, k: nat)
    requires b0 < Pow2(k) && b1 < Pow2(k) && b2 < Pow2(k) && b3 < Pow2(k)
    ensures BitOr(BitOr(BitOr(b0, Shl(b1, k)), Shl(b2, k + k)), Shl(b3, k + k + k))
         == b0 + Shl(b1, k) + Shl(b2, k + k) + Shl(b3, k + k + k)
    ensures b0 + Shl(b1, k) + Shl(b2, k + k) + Shl(b3, k + k + k) < Pow2(k + k + k + k)
  {
    hide *;
    var k2, k3 := k + k, k + k + k;
    OrTwo(b0, k, b1, k);
    OrTwo(b0 + Shl(b1, k), k2, b2, k);
    OrTwo(b0 + Shl(b1, k) + Shl(b2, k2), k3, b3, k);
  }

  lemma WordAtIsLittleEndian(page: seq<byte>, word: nat)
    requires word < WordCount(page)
    ensures WordAt(page, word) == ByteAt(page, word * 4) + 0x100 * ByteAt(page, word * 4 + 1)
                                  + 0x1_0000 * ByteAt(page, word * 4 + 2) + 0x100_0000 * ByteAt(page, word * 4 + 3)
    ensures WordAt(page, word) < Pow2(BITS_PER_PACKET)
  {
    var b0, b1, b2, b3 := ByteAt(page, word * 4), ByteAt(page, word * 4 + 1), ByteAt(page, word * 4 + 2), ByteAt(page, word * 4 + 3);
    ByteShifts(b1);
    ByteShifts(b2);
    ByteShifts(b3);
    OrFour(b0, b1, b2, b3, 8);
  }

  function Field(st: Streams, lane: nat, n: nat): nat
    requires lane < |st.lanes| && n <= |st.lanes[lane]|
  {
    Low(st.lanes[lane][..n])
  }

  function Consume(st: Streams, lane: nat, n: nat): Streams
    requires lane < |st.lanes| && n <= |st.lanes[lane]|
  {
    st.(lanes := st.lanes[lane := st.lanes[lane][n..]])
  }

  /** A lane below the watermark takes the word at the cursor, if there is one. */
  function Refill(page: seq<byte>, st: Streams, lane: nat): Result<Streams>
    requires lane < |st.lanes|
  {
    if |st.lanes[lane]| >= LOW_WATERMARK_BITS then Ok(st)
    else if st.cursor >= WordCount(page) then Refused(RefillPastEnd)
    else Ok(Streams(st.lanes[lane := st.lanes[lane] + Word(page, st.cursor)], st.cursor + 1))
  }

  /** The priming round: word i to lane i. */
  function Primed(page: seq<byte>): Result<Streams> {
    if |page| % 4 != 0 then Refused(PagePartialWord)
    else if WordCount(page) < NUM_STREAMS then Refused(PageBelowPrimingRound)
    else Ok(Streams(seq(NUM_STREAMS, i requires 0 <= i < NUM_STREAMS => Word(page, i)), NUM_STREAMS))
  }

  /** Between rounds every lane is at or above the watermark. */
  predicate Ready(st: Streams) {
    |st.lanes| == NUM_STREAMS && forall l :: 0 <= l < NUM_STREAMS ==> |st.lanes[l]| >= LOW_WATERMARK_BITS
  }

  // ----- conservation -----

  /** Who received each word handed out so far, and every bit each lane has
      given up, in order. */
  datatype History = History(owner: seq<nat>, removed: seq<seq<bool>>)

  /** The words a lane received, in cursor order. */
  function Received(page: seq<byte>, owner: seq<nat>, lane: nat): seq<bool>
    requires |owner| <= WordCount(page)
  {
    if owner == [] then []
    else
      var n := |owner| - 1;
      Received(page, owner[..n], lane) + (if owner[n] == lane then Word(page, n) else [])
  }

  /** Every word below the cursor went to exactly one lane, and what each lane
      has removed followed by what it still holds is what it received. */
  ghost predicate Conserved(page: seq<byte>, st: Streams, h: History) {
    && |st.lanes| == |h.removed| == NUM_STREAMS
    && |h.owner| == st.cursor <= WordCount(page)
    && (forall w :: 0 <= w < |h.owner| ==> h.owner[w] < NUM_STREAMS)
    && forall l :: 0 <= l < NUM_STREAMS ==> h.removed[l] + st.lanes[l] == Received(page, h.owner, l)
  }

  function Consumed(h: History, st: Streams, lane: nat, n: nat): History
    requires lane < |st.lanes| && lane < |h.removed| && n <= |st.lanes[lane]|
  {
    h.(removed := h.removed[lane := h.removed[lane] + st.lanes[lane][..n]])
  }

  lemma ConsumeConserves(page: seq<byte>, st: Streams, h: History, lane: nat, n: nat)
    requires Conserved(page, st, h) && lane < NUM_STREAMS && n <= |st.lanes[lane]|
    ensures Conserved(page, Consume(st, lane, n), Consumed(h, st, lane, n))
  {
    var held := st.lanes[lane];
    assert held == held[..n] + held[n..];
    assert h.removed[lane] + held == (h.removed[lane] + held[..n]) + held[n..];
  }

  lemma RefillConserves(page: seq<byte>, st: Streams, h: History, lane: nat)
    requires Conserved(page, st, h) && lane < NUM_STREAMS && st.cursor < WordCount(page)
    ensures Conserved(page, Streams(st.lanes[lane := st.lanes[lane] + Word(page, st.cursor)], st.cursor + 1),
                      h.(owner := h.owner + [lane]))
  {
    var owner := h.owner + [lane];
    assert owner[..|owner| - 1] == h.owner;
    var w := Word(page, st.cursor);
    assert h.removed[lane] + (st.lanes[lane] + w) == (h.removed[lane] + st.lanes[lane]) + w;
    forall l | 0 <= l < NUM_STREAMS
      ensures Received(page, owner, l) == Received(page, h.owner, l) + (if l == lane then w else [])
    {
    }
  }

  /** The bits of all lanes together. */
  function Total(queues: seq<seq<bool>>): nat {
    if queues == [] then 0 else Total(queues[..|queues| - 1]) + |queues[|queues| - 1]|
  }

  lemma {:induction false} TotalUpdate(queues: seq<seq<bool>>, i: nat, q: seq<bool>)
    requires i < |queues|
    ensures Total(queues[i := q]) == Total(queues) - |queues[i]| + |q|
  {
    var n := |queues| - 1;
    if i < n {
      TotalUpdate(queues[..n], i, q);
      assert queues[i := q][..n] == queues[..n][i := q];
    } else {
      assert queues[i := q][..n] == queues[..n];
    }
  }

  lemma {:induction false} ReceivedLength(page: seq<byte>, owner: seq<nat>, lanes: nat) returns (all: seq<seq<bool>>)
    requires |owner| <= WordCount(page)
    requires forall w :: 0 <= w < |owner| ==> owner[w] < lanes
    ensures |all| == lanes && forall l :: 0 <= l < lanes ==> all[l] == Received(page, owner, l)
    ensures Total(all) == BITS_PER_PACKET * |owner|
  {
    if owner == [] {
      all := seq(lanes, _ => []);
      TotalOfEmpty(lanes);
    } else {
      var n := |owner| - 1;
      var before := ReceivedLength(page, owner[..n], lanes);
      TotalUpdate(before, owner[n], before[owner[n]] + Word(page, n));
      all := before[owner[n] := before[owner[n]] + Word(page, n)];
    }
  }

  lemma {:induction false} TotalOfEmpty(lanes: nat)
    ensures Total(seq(lanes, _ => [])) == 0
  {
    if lanes > 0 {
      TotalOfEmpty(lanes - 1);
      assert seq<seq<bool>>(lanes, _ => [])[..lanes - 1] == seq<seq<bool>>(lanes - 1, _ => []);
    }
  }

  lemma {:induction false} TotalOfJoin(a: seq<seq<bool>>, b: seq<seq<bool>>, c: seq<seq<bool>>)
    requires |a| == |b| == |c| && forall i :: 0 <= i < |a| ==> c[i] == a[i] + b[i]
    ensures Total(c) == Total(a) + Total(b)
  {
    if a != [] {
      var n := |a| - 1;
      TotalOfJoin(a[..n], b[..n], c[..n]);
    }
  }

  /** Bits consumed and bits buffered add up to the words handed out. */
  lemma BitsAreConserved(page: seq<byte>, st: Streams, h: History)
    requires Conserved(page, st, h)
    ensures Total(h.removed) + Total(st.lanes) == BITS_PER_PACKET * st.cursor
  {
    var all := ReceivedLength(page, h.owner, NUM_STREAMS);
    TotalOfJoin(h.removed, st.lanes, all);
  }

  /** What a page still has to give: the bits buffered and the words not yet
      handed out. A refill moves bits between the two, a read spends them. */
  function Remaining(page: seq<byte>, st: Streams): nat
    requires st.cursor <= WordCount(page)
  {
    Total(st.lanes) + BITS_PER_PACKET * (WordCount(page) - st.cursor)
  }

  lemma ConsumeSpends(page: seq<byte>, st: Streams, lane: nat, n: nat)
    requires st.cursor <= WordCount(page) && lane < |st.lanes| && n <= |st.lanes[lane]|
    ensures Remaining(page, Consume(st, lane, n)) == Remaining(page, st) - n
  {
    TotalUpdate(st.lanes, lane, st.lanes[lane][n..]);
  }

  lemma RefillKeeps(page: seq<byte>, st: Streams, lane: nat)
    requires st.cursor <= WordCount(page) && lane < |st.lanes| && Refill(page, st, lane).Ok?
    ensures var after := Refill(page, st, lane).value;
            after.cursor <= WordCount(page) && Remaining(page, after) == Remaining(page, st)
  {
    if |st.lanes[lane]| < LOW_WATERMARK_BITS {
      TotalUpdate(st.lanes, lane, st.lanes[lane] + Word(page, st.cursor));
    }
  }

  lemma PrimedConserves(page: seq<byte>)
    requires Primed(page).Ok?
    ensures Conserved(page, Primed(page).value, History(seq(NUM_STREAMS, i => i), seq(NUM_STREAMS, _ => [])))
    ensures Ready(Primed(page).value)
  {
    forall l | 0 <= l < NUM_STREAMS
      ensures Received(page, seq(NUM_STREAMS, i => i), l) == Word(page, l)
    {
      FirstWords(page, NUM_STREAMS, l);
    }
  }

  lemma {:induction false} FirstWords(page: seq<byte>, n: nat, lane: nat)
    requires n <= WordCount(page)
    ensures Received(page, seq(n, i => i), lane) == if lane < n then Word(page, lane) else []
  {
    if n > 0 {
      FirstWords(page, n - 1, lane);
      assert seq(n, i => i)[..n - 1] == seq(n - 1, i => i);
    }
  }

  ghost predicate PartlyPrimed(page: seq<byte>, st: Streams, n: nat) {
    && |st.lanes| == NUM_STREAMS && st.cursor == n <= WordCount(page)
    && (forall i :: 0 <= i < n && i < NUM_STREAMS ==> st.lanes[i] == Word(page, i))
    && forall i :: n <= i < NUM_STREAMS ==> st.lanes[i] == []
  }

  lemma PrimingStep(page: seq<byte>, st: Streams, n: nat)
    requires PartlyPrimed(page, st, n) && n < NUM_STREAMS <= WordCount(page)
    ensures Refill(page, st, n).Ok? && PartlyPrimed(page, Refill(page, st, n).value, n + 1)
  {
    assert [] + Word(page, n) == Word(page, n);
  }

  lemma PrimingDone(page: seq<byte>, st: Streams)
    requires PartlyPrimed(page, st, NUM_STREAMS) && |page| % 4 == 0
    ensures Primed(page) == Ok(st)
  {
    assert Primed(page).value.lanes == st.lanes;
  }

  // ----- any run of the primitives -----

  datatype Op = ReadBits(lane: nat, n: nat) | Ensure(lane: nat)

  /** One primitive. A read past the lane and a refill past the page refuse. */
  function Step(page: seq<byte>, st: Streams, op: Op): Result<Streams>
    requires |st.lanes| == NUM_STREAMS
  {
    match op
    case ReadBits(lane, n) =>
      if lane >= NUM_STREAMS then Ok(st)
      else if n > MAX_POP_BITS then Refused(PopWidthPastFormat)
      else if n > |st.lanes[lane]| then Refused(PopPastLane)
      else Ok(Consume(st, lane, n))
    case Ensure(lane) =>
      if lane >= NUM_STREAMS then Ok(st) else Refill(page, st, lane)
  }

  function Run(page: seq<byte>, st: Streams, ops: seq<Op>): Result<Streams>
    requires |st.lanes| == NUM_STREAMS
    decreases |ops|
  {
    if ops == [] then Ok(st)
    else
      var next := Step(page, st, ops[0]);
      if next.Refused? then next else Run(page, next.value, ops[1..])
  }

  ghost predicate Sound(page: seq<byte>, st: Streams, h: History) {
    Conserved(page, st, h) && forall l :: 0 <= l < NUM_STREAMS ==> |st.lanes[l]| <= MAX_LANE_BITS
  }

  /** The history one primitive leaves: a read puts its field behind what its lane
      has given up, and a refill that takes a word makes its lane that word's owner. */
  function HistoryStep(st: Streams, h: History, op: Op): History
    requires |st.lanes| == NUM_STREAMS && |h.removed| == NUM_STREAMS
    requires op.ReadBits? && op.lane < NUM_STREAMS ==> op.n <= |st.lanes[op.lane]|
  {
    match op
    case ReadBits(lane, n) => if lane < NUM_STREAMS then Consumed(h, st, lane, n) else h
    case Ensure(lane) => if TakesWord(st, op) then h.(owner := h.owner + [lane]) else h
  }

  predicate TakesWord(st: Streams, op: Op)
    requires |st.lanes| == NUM_STREAMS
  {
    op.Ensure? && op.lane < NUM_STREAMS && |st.lanes[op.lane]| < LOW_WATERMARK_BITS
  }

  function HistoryAfter(page: seq<byte>, st: Streams, h: History, ops: seq<Op>): (h': History)
    requires |st.lanes| == NUM_STREAMS && |h.removed| == NUM_STREAMS && Run(page, st, ops).Ok?
    ensures |h'.removed| == NUM_STREAMS
    decreases |ops|
  {
    if ops == [] then h
    else HistoryAfter(page, Step(page, st, ops[0]).value, HistoryStep(st, h, ops[0]), ops[1..])
  }

  /** The number a read of this lane returns, written out in the read's own width. */
  function StepOut(st: Streams, op: Op, lane: nat): seq<bool>
    requires |st.lanes| == NUM_STREAMS
    requires op.ReadBits? && op.lane < NUM_STREAMS ==> op.n <= |st.lanes[op.lane]|
  {
    if op.ReadBits? && op.lane == lane < NUM_STREAMS then BitsOf(Field(st, lane, op.n), op.n) else []
  }

  /** The same for a whole run: the numbers one behind another, in the order of the
      reads. */
  function ReadOut(page: seq<byte>, st: Streams, ops: seq<Op>, lane: nat): seq<bool>
    requires |st.lanes| == NUM_STREAMS && Run(page, st, ops).Ok?
    decreases |ops|
  {
    if ops == [] then []
    else StepOut(st, ops[0], lane) + ReadOut(page, Step(page, st, ops[0]).value, ops[1..], lane)
  }

  /** The lanes of the refills that take a word, in the order of the words. */
  function Takers(page: seq<byte>, st: Streams, ops: seq<Op>): seq<nat>
    requires |st.lanes| == NUM_STREAMS && Run(page, st, ops).Ok?
    decreases |ops|
  {
    if ops == [] then []
    else (if TakesWord(st, ops[0]) then [ops[0].lane] else []) + Takers(page, Step(page, st, ops[0]).value, ops[1..])
  }

  /** The widths asked of one lane, added up. */
  function WidthsOf(ops: seq<Op>, lane: nat): nat {
    if ops == [] then 0 else (if ops[0].ReadBits? && ops[0].lane == lane then ops[0].n else 0) + WidthsOf(ops[1..], lane)
  }

  /** The widths asked of all lanes. */
  function Widths(ops: seq<Op>): nat {
    if ops == [] then 0 else (if ops[0].ReadBits? && ops[0].lane < NUM_STREAMS then ops[0].n else 0) + Widths(ops[1..])
  }

  lemma StepConserves(page: seq<byte>, st: Streams, h: History, op: Op)
    requires Sound(page, st, h) && Step(page, st, op).Ok?
    ensures var h' := HistoryStep(st, h, op);
            && Sound(page, Step(page, st, op).value, h')
            && Total(h'.removed) == Total(h.removed) + (if op.ReadBits? && op.lane < NUM_STREAMS then op.n else 0)
            && h'.owner == h.owner + (if TakesWord(st, op) then [op.lane] else [])
            && forall l :: 0 <= l < NUM_STREAMS ==>
                             && h'.removed[l] == h.removed[l] + StepOut(st, op, l)
                             && |StepOut(st, op, l)| == if op.ReadBits? && op.lane == l then op.n else 0
  {
    match op {
      case ReadBits(lane, n) =>
        if lane < NUM_STREAMS {
          ConsumeConserves(page, st, h, lane, n);
          BitsOfLow(st.lanes[lane][..n]);
          TotalUpdate(h.removed, lane, h.removed[lane] + st.lanes[lane][..n]);
        }
      case Ensure(lane) =>
        if lane < NUM_STREAMS && |st.lanes[lane]| < LOW_WATERMARK_BITS {
          RefillConserves(page, st, h, lane);
        }
    }
  }

  lemma RunUnfold(page: seq<byte>, st: Streams, h: History, ops: seq<Op>)
    requires |st.lanes| == |h.removed| == NUM_STREAMS && Run(page, st, ops).Ok? && ops != []
    ensures var op, rest := ops[0], ops[1..];
            && Step(page, st, op).Ok?
            && var next := Step(page, st, op).value;
               && |next.lanes| == NUM_STREAMS && Run(page, st, ops) == Run(page, next, rest)
               && HistoryAfter(page, st, h, ops) == HistoryAfter(page, next, HistoryStep(st, h, op), rest)
               && Takers(page, st, ops) == (if TakesWord(st, op) then [op.lane] else []) + Takers(page, next, rest)
               && Widths(ops) == (if op.ReadBits? && op.lane < NUM_STREAMS then op.n else 0) + Widths(rest)
               && forall l :: 0 <= l < NUM_STREAMS ==>
                    && ReadOut(page, st, ops, l) == StepOut(st, op, l) + ReadOut(page, next, rest, l)
                    && WidthsOf(ops, l) == (if op.ReadBits? && op.lane == l then op.n else 0) + WidthsOf(rest, l)
  {
    hide BitsOf, Field;
  }

  /** Over every run of reads and refills that has not refused, no word is lost,
      duplicated or reordered, and no lane outgrows its buffer: what a lane has
      given up is exactly what its reads returned, in order, and the words went to
      the lanes whose refills took them, in order. */
  lemma {:induction false} EveryRunConserves(page: seq<byte>, st: Streams, h: History, ops: seq<Op>)
    requires Sound(page, st, h) && Run(page, st, ops).Ok?
    ensures var end, h' := Run(page, st, ops).value, HistoryAfter(page, st, h, ops);
            && Sound(page, end, h')
            && Total(h'.removed) + Total(end.lanes) == BITS_PER_PACKET * end.cursor
            && Total(h'.removed) == Total(h.removed) + Widths(ops)
            && h'.owner == h.owner + Takers(page, st, ops)
            && forall l :: 0 <= l < NUM_STREAMS ==>
                             h'.removed[l] == h.removed[l] + ReadOut(page, st, ops, l) && |ReadOut(page, st, ops, l)| == WidthsOf(ops, l)
    decreases |ops|
  {
    hide BitsOf, Conserved, Received, Sound, Run, HistoryAfter, HistoryStep, ReadOut, StepOut, Takers, TakesWord, Widths, WidthsOf, Total;
    SoundShape(page, st, h);
    if ops == [] {
      NothingRun(page, st, h);
      BitsAreConserved(page, st, h);
    } else {
      RunUnfold(page, st, h, ops);
      StepConserves(page, st, h, ops[0]);
      EveryRunConserves(page, Step(page, st, ops[0]).value, HistoryStep(st, h, ops[0]), ops[1..]);
    }
  }

  lemma NothingRun(page: seq<byte>, st: Streams, h: History)
    requires |st.lanes| == |h.removed| == NUM_STREAMS
    ensures Run(page, st, []) == Ok(st) && HistoryAfter(page, st, h, []) == h && Takers(page, st, []) == [] && Widths([]) == 0
    ensures forall l: nat :: ReadOut(page, st, [], l) == [] && WidthsOf([], l) == 0
  {
  }

  lemma SoundShape(page: seq<byte>, st: Streams, h: History)
    requires Sound(page, st, h)
    ensures |st.lanes| == |h.removed| == NUM_STREAMS && Conserved(page, st, h)
  {
  }

  /** A whole page: from priming on, what the reads of a lane have returned and what
      the lane still holds are the words dealt to it, in order, the first of them
      by priming and the others by its own refills. */
  lemma PageIsReadOnce(page: seq<byte>, ops: seq<Op>, lane: nat)
    requires Primed(page).Ok? && Run(page, Primed(page).value, ops).Ok? && lane < NUM_STREAMS
    ensures var st := Primed(page).value;
            var end, owner := Run(page, st, ops).value, seq(NUM_STREAMS, i => i) + Takers(page, st, ops);
            && |owner| == end.cursor <= WordCount(page) && |end.lanes| == NUM_STREAMS
            && ReadOut(page, st, ops, lane) + end.lanes[lane] == Received(page, owner, lane)
  {
    var h := History(seq(NUM_STREAMS, i => i), seq(NUM_STREAMS, _ => []));
    PrimedConserves(page);
    EveryRunConserves(page, Primed(page).value, h, ops);
    assert [] + ReadOut(page, Primed(page).value, ops, lane) == ReadOut(page, Primed(page).value, ops, lane);
  }

  // ----- the schedule itself -----

  /** Bits read but not yet removed, and the refusal the reading came to. */
  datatype LaneRead = LaneRead(consumed: nat, why: Reject)

  const NoRead := LaneRead(0, NoReject)

  method ReadAhead(bitbuf: nat, bitsleft: nat, r: LaneRead, n: nat) returns (value: nat, r': LaneRead)
    requires bitbuf < Pow2(bitsleft) && r.consumed <= bitsleft <= MAX_LANE_BITS
    ensures r'.consumed <= bitsleft
    ensures r.why != NoReject ==> value == 0 && r' == r
    ensures r.why == NoReject ==>
              if n > MAX_POP_BITS then value == 0 && r' == r.(why := PopWidthPastFormat)
              else if n > bitsleft - r.consumed then value == 0 && r' == r.(why := PopPastLane)
              else r' == LaneRead(r.consumed + n, NoReject)
                   && value == Low(BitsOf(bitbuf, bitsleft)[r.consumed..r.consumed + n])
  {
    value, r' := 0, r;
    if r.why != NoReject {
      return;
    }
    if n > MAX_POP_BITS {
      r' := r.(why := PopWidthPastFormat);
      return;
    }
    if n > bitsleft - r.consumed {
      r' := r.(why := PopPastLane);
      return;
    }
    var window := Shr(bitbuf, r.consumed);
    r' := r.(consumed := r.consumed + n);
    value := Mask(window, n);
    BitsDrop(bitbuf, r.consumed, bitsleft);
    BitsTake(window, n, bitsleft - r.consumed);
    LowOfBits(window, n);
    assert BitsOf(bitbuf, bitsleft)[r.consumed..r.consumed + n] == BitsOf(bitbuf, bitsleft)[r.consumed..][..n];
  }

  function LaneBits(bufs: seq<nat>, lefts: seq<nat>): seq<seq<bool>>
    requires |bufs| == |lefts|
  {
    seq(|bufs|, i requires 0 <= i < |bufs| => BitsOf(bufs[i], lefts[i]))
  }

  /** No bit sits above a lane's occupancy, and no lane holds more than 63. */
  predicate LanesTidy(bufs: seq<nat>, lefts: seq<nat>) {
    |bufs| == |lefts| && forall i :: 0 <= i < |bufs| ==> lefts[i] <= MAX_LANE_BITS && bufs[i] < Pow2(lefts[i])
  }

  lemma SetLane(bufs: seq<nat>, lefts: seq<nat>, i: nat, buf: nat, left: nat)
    requires LanesTidy(bufs, lefts) && i < |bufs| && left <= MAX_LANE_BITS && buf < Pow2(left)
    ensures LanesTidy(bufs[i := buf], lefts[i := left])
    ensures LaneBits(bufs[i := buf], lefts[i := left]) == LaneBits(bufs, lefts)[i := BitsOf(buf, left)]
  {
  }

  method ShiftOut(buf: nat, left: nat, n: nat) returns (buf': nat)
    requires buf < Pow2(left) && n <= left
    ensures buf' < Pow2(left - n) && BitsOf(buf', left - n) == BitsOf(buf, left)[n..]
  {
    buf' := Shr(buf, n);
    BitsDrop(buf, n, left);
  }

  /** A word moved above a lane's bits, in a register of 64: what does not fit is
      lost, and below the watermark nothing is. */
  method ShiftIn(buf: nat, left: nat, page: seq<byte>, word: nat) returns (buf': nat)
    requires buf < Pow2(left) && word < WordCount(page)
    ensures buf' == Mask(BitOr(buf, Shl(WordAt(page, word), left)), REGISTER_BITS)
    ensures left + BITS_PER_PACKET <= REGISTER_BITS ==>
              && buf' < Pow2(left + BITS_PER_PACKET)
              && BitsOf(buf', left + BITS_PER_PACKET) == BitsOf(buf, left) + Word(page, word)
  {
    hide Mask, BitOr, Shl, WordAt, Pow2;
    buf' := Mask(BitOr(buf, Shl(WordAt(page, word), left)), REGISTER_BITS);
    WordAtIsLittleEndian(page, word);
    OrQueues(buf, left, WordAt(page, word), BITS_PER_PACKET);
    if left + BITS_PER_PACKET <= REGISTER_BITS {
      Pow2Mono(left + BITS_PER_PACKET, REGISTER_BITS);
      MaskSmall(BitOr(buf, Shl(WordAt(page, word), left)), REGISTER_BITS);
    }
  }

  /** The schedule as it is held: a number and a length for each queue. A failed
      schedule keeps its first reason, and nothing moves any more. */
  class GDeflateSchedule {
    const bitbuf: array<nat>
    const bitsleft: array<nat>
    var idx: nat
    var cursor: nat
    var wordCount: nat
    var failed: bool
    var reject: Reject

    ghost function Repr(): set<object> { {this, bitbuf, bitsleft} }

    ghost predicate Shaped() {
      bitbuf != bitsleft && bitbuf.Length == bitsleft.Length == NUM_STREAMS
    }

    ghost function Abs(): Streams
      requires Shaped()
      reads this, bitbuf, bitsleft
    {
      Streams(LaneBits(bitbuf[..], bitsleft[..]), cursor)
    }

    ghost predicate Valid(page: seq<byte>)
      reads this, bitbuf, bitsleft
    {
      && Shaped()
      && idx < NUM_STREAMS && wordCount == WordCount(page) && cursor <= wordCount
      && (failed <==> reject != NoReject)
      && LanesTidy(bitbuf[..], bitsleft[..])
    }

    /** One lane's registers, and the bits they hold. */
    lemma HeldAt(page: seq<byte>, l: nat)
      requires Valid(page) && l < NUM_STREAMS
      ensures |Abs().lanes| == NUM_STREAMS && Abs().lanes[l] == BitsOf(bitbuf[l], bitsleft[l])
      ensures |Abs().lanes[l]| == bitsleft[l] <= MAX_LANE_BITS && bitbuf[l] < Pow2(bitsleft[l])
    {
    }

    constructor ()
      ensures Shaped() && fresh(bitbuf) && fresh(bitsleft)
    {
      bitbuf := new nat[NUM_STREAMS];
      bitsleft := new nat[NUM_STREAMS];
      idx, cursor, wordCount, failed, reject := 0, 0, 0, false, NoReject;
    }

    /** Fail for this reason, unless it has failed for another already. */
    method Refuse(branch: Reject)
      requires branch != NoReject && (failed <==> reject != NoReject)
      modifies this`failed, this`reject
      ensures failed && reject == (if old(failed) then old(reject) else branch)
    {
      if !failed {
        failed := true;
        reject := branch;
      }
    }

    method Remove(page: seq<byte>, n: nat)
      requires Valid(page)
      modifies this`failed, this`reject, bitbuf, bitsleft
      ensures Valid(page)
      ensures old(failed) ==> failed && reject == old(reject) && Abs() == old(Abs())
      ensures !old(failed) && n > |old(Abs()).lanes[idx]| ==> failed && reject == RemovePastLane && Abs() == old(Abs())
      ensures !old(failed) && n <= |old(Abs()).lanes[idx]| ==> !failed && Abs() == Consume(old(Abs()), idx, n)
    {
      if failed {
        return;
      }
      if n > bitsleft[idx] {
        Refuse(RemovePastLane);
        return;
      }
      var left := bitsleft[idx] - n;
      var buf := ShiftOut(bitbuf[idx], bitsleft[idx], n);
      SetLane(bitbuf[..], bitsleft[..], idx, buf, left);
      bitbuf[idx] := buf;
      bitsleft[idx] := left;
      assert bitbuf[..] == old(bitbuf[..])[idx := buf] && bitsleft[..] == old(bitsleft[..])[idx := left];
    }

    method Pop(page: seq<byte>, n: nat) returns (value: nat)
      requires Valid(page)
      modifies this`failed, this`reject, bitbuf, bitsleft
      ensures Valid(page)
      ensures old(failed) ==> failed && reject == old(reject) && Abs() == old(Abs()) && value == 0
      ensures !old(failed) ==>
                if n > MAX_POP_BITS then failed && reject == PopWidthPastFormat && Abs() == old(Abs())
                else if n > |old(Abs()).lanes[idx]| then failed && reject == PopPastLane && Abs() == old(Abs())
                else !failed && Abs() == Consume(old(Abs()), idx, n) && value == Field(old(Abs()), idx, n)
    {
      if failed {
        return 0;
      }
      var r;
      value, r := ReadAhead(bitbuf[idx], bitsleft[idx], NoRead, n);
      if r.why != NoReject {
        Refuse(r.why);
        return 0;
      }
      Remove(page, n);
    }

    /** The word's 32 bits go to the back of the current queue, or the page is
        refused for not having that word. Nothing here asks whether the lane has
        room: at the watermark or above, the count passes what a register holds,
        and the lane no longer means anything. */
    method RefillLane(page: seq<byte>, word: nat)
      requires Valid(page)
      modifies this`failed, this`reject, bitbuf, bitsleft
      ensures Valid(page) <==> old(failed) || word >= wordCount || old(bitsleft[idx]) < LOW_WATERMARK_BITS
      ensures old(failed) ==> failed && reject == old(reject) && Abs() == old(Abs())
      ensures !old(failed) && word >= wordCount ==> failed && reject == RefillPastEnd && Abs() == old(Abs())
      ensures !old(failed) && word < wordCount ==>
                && !failed
                && bitsleft[..] == old(bitsleft[..])[idx := old(bitsleft[idx]) + BITS_PER_PACKET]
                && bitbuf[..] == old(bitbuf[..])[idx := Mask(BitOr(old(bitbuf[idx]), Shl(WordAt(page, word), old(bitsleft[idx]))), REGISTER_BITS)]
      ensures !old(failed) && word < wordCount && old(bitsleft[idx]) < LOW_WATERMARK_BITS ==>
                Abs() == old(Abs()).(lanes := old(Abs()).lanes[idx := old(Abs()).lanes[idx] + Word(page, word)])
    {
      hide Mask, BitOr, Shl, WordAt, Word, BitsOf, Pow2;
      if failed {
        return;
      }
      if word >= wordCount {
        Refuse(RefillPastEnd);
        return;
      }
      var left := bitsleft[idx] + BITS_PER_PACKET;
      var buf := ShiftIn(bitbuf[idx], bitsleft[idx], page, word);
      if left <= MAX_LANE_BITS {
        SetLane(bitbuf[..], bitsleft[..], idx, buf, left);
      }
      bitbuf[idx] := buf;
      bitsleft[idx] := left;
      assert bitbuf[..] == old(bitbuf[..])[idx := buf] && bitsleft[..] == old(bitsleft[..])[idx := left];
    }

    /** Afterwards the current lane is at the watermark, or the page has refused. */
    method Ensure(page: seq<byte>)
      requires Valid(page)
      modifies this, bitbuf, bitsleft
      ensures Valid(page) && idx == old(idx)
      ensures old(failed) ==> failed && reject == old(reject) && Abs() == old(Abs())
      ensures !old(failed) ==>
                match Refill(page, old(Abs()), idx)
                case Ok(st) => !failed && Abs() == st
                case Refused(why) => failed && reject == why && Abs() == old(Abs())
    {
      if failed || bitsleft[idx] >= LOW_WATERMARK_BITS {
        return;
      }
      RefillLane(page, cursor);
      if failed {
        return;
      }
      cursor := cursor + 1;
    }

    /** The lane that has just been read takes its word before the next lane is
        current, so words are dealt in the order lanes are read. */
    method Advance(page: seq<byte>)
      requires Valid(page)
      modifies this, bitbuf, bitsleft
      ensures Valid(page)
      ensures old(failed) ==> failed && reject == old(reject) && Abs() == old(Abs()) && idx == old(idx)
      ensures !old(failed) ==>
                match Refill(page, old(Abs()), old(idx))
                case Ok(st) => !failed && Abs() == st && idx == if old(idx) + 1 == NUM_STREAMS then 0 else old(idx) + 1
                case Refused(why) => failed && reject == why && Abs() == old(Abs())
    {
      if failed {
        return;
      }
      Ensure(page);
      if failed {
        return;
      }
      idx := (idx + 1) % NUM_STREAMS;
    }

    /** Lane 0 becomes current; queues and cursor stay as they are. */
    method Reset(page: seq<byte>)
      requires Valid(page)
      modifies this`idx
      ensures Valid(page) && idx == if failed then old(idx) else 0
    {
      if failed {
        return;
      }
      idx := 0;
    }

    /** Step lane `l` next, which is what a round does before each lane. */
    method Select(page: seq<byte>, l: nat)
      requires Valid(page) && l < NUM_STREAMS
      modifies this`idx
      ensures Valid(page) && idx == l
    {
      idx := l;
    }

    method Clear(page: seq<byte>)
      requires Shaped()
      modifies this, bitbuf, bitsleft
      ensures Valid(page) && !failed && idx == 0 && PartlyPrimed(page, Abs(), 0)
    {
      for n := 0 to NUM_STREAMS
        invariant forall i :: 0 <= i < n ==> bitbuf[i] == 0 && bitsleft[i] == 0
      {
        bitbuf[n] := 0;
        bitsleft[n] := 0;
      }
      idx, cursor, failed, reject := 0, 0, false, NoReject;
      wordCount := |page| / 4;
    }

    method PrimeLanes(page: seq<byte>)
      requires Valid(page) && !failed && idx == 0 && PartlyPrimed(page, Abs(), 0) && NUM_STREAMS <= wordCount
      modifies this, bitbuf, bitsleft
      ensures Valid(page) && !failed && idx == 0 && PartlyPrimed(page, Abs(), NUM_STREAMS)
    {
      for n := 0 to NUM_STREAMS
        invariant Valid(page) && !failed && idx == if n == NUM_STREAMS then 0 else n
        invariant PartlyPrimed(page, Abs(), n)
      {
        PrimingStep(page, Abs(), n);
        Advance(page);
      }
    }

    /** The priming round. */
    method Init(page: seq<byte>) returns (ok: bool)
      requires Shaped()
      modifies this, bitbuf, bitsleft
      ensures Valid(page) && ok == !failed
      ensures match Primed(page)
              case Ok(st) => ok && Abs() == st && idx == 0
              case Refused(why) => !ok && reject == why
    {
      Clear(page);
      if |page| % 4 != 0 {
        Refuse(PagePartialWord);
        return false;
      }
      if wordCount < NUM_STREAMS {
        Refuse(PageBelowPrimingRound);
        return false;
      }
      PrimeLanes(page);
      PrimingDone(page, Abs());
      return !failed;
    }

    method BufferedBits(page: seq<byte>) returns (total: nat)
      requires Valid(page)
      ensures total == Total(Abs().lanes)
    {
      total := 0;
      for n := 0 to NUM_STREAMS
        invariant total == Total(Abs().lanes[..n])
      {
        assert Abs().lanes[..n + 1][..n] == Abs().lanes[..n];
        total := total + bitsleft[n];
      }
      assert Abs().lanes[..NUM_STREAMS] == Abs().lanes;
    }
  }
}
