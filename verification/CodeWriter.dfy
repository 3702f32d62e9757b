/** Writing the codes of a block: the fixed codewords in closed form, and the
    header of a dynamic block from its counts, its precode and its runs. What is
    written is read back as just that. */
module CodeWriter {
  import opened Bits
  import opened CanonicalCode
  import opened Schedule
  import opened HuffTable
  import opened Lz77
  import opened PageSpec
  import opened Team
  import opened PageTheorems
  import opened PageWriter

  // ----- what an item tells the reader -----

  /** An item at the head of a script that is fed: its bits are at the front of its
      lane, and behind it its word is there. */
  lemma ItemRead(page: seq<byte>, st: Streams, lane: nat, bits: seq<bool>, rest: seq<Item>)
    requires |st.lanes| == NUM_STREAMS && lane < NUM_STREAMS && Feed(page, st, [Item(lane, bits, true)] + rest).Ok?
    ensures bits <= st.lanes[lane]
    ensures var after := Refill(page, Consume(st, lane, |bits|), lane);
            && after.Ok? && |after.value.lanes| == NUM_STREAMS
            && Feed(page, st, [Item(lane, bits, true)] + rest) == Feed(page, after.value, rest)
  {
    FeedUnfold(page, st, Item(lane, bits, true), rest);
  }

  /** The same from a watermark, which the refill restores. */
  lemma ReadyItem(page: seq<byte>, st: Streams, lane: nat, bits: seq<bool>, rest: seq<Item>)
    requires Ready(st) && st.cursor <= WordCount(page) && lane < NUM_STREAMS && |bits| <= LOW_WATERMARK_BITS
    requires Feed(page, st, [Item(lane, bits, true)] + rest).Ok?
    ensures bits <= st.lanes[lane]
    ensures var after := Refill(page, Consume(st, lane, |bits|), lane);
            && after.Ok? && Ready(after.value) && after.value.cursor <= WordCount(page)
            && Feed(page, st, [Item(lane, bits, true)] + rest) == Feed(page, after.value, rest)
  {
    ItemRead(page, st, lane, bits, rest);
    ConsumeReads(st, lane, |bits|);
    ReadThenRefill(page, st, Consume(st, lane, |bits|), lane);
  }

  lemma FieldOf(bits: seq<bool>, at: nat, v: nat, k: nat)
    requires at + k <= |bits| && bits[at..at + k] == BitsOf(v, k) && v < Pow2(k)
    ensures Low(bits[at..at + k]) == v
  {
    LowOfBits(v, k);
    MaskSmall(v, k);
  }

  /** The front of a string is the front of what it begins with. */
  lemma FrontOf(w: seq<bool>, bits: seq<bool>, a: nat, b: nat)
    requires w <= bits && a <= b <= |w|
    ensures bits[a..b] == w[a..b]
  {
  }

  /** A lane that begins with a symbol's codeword begins with that symbol. */
  lemma SymbolIsRead(lens: seq<nat>, m: nat, sym: nat, bits: seq<bool>)
    requires IsCode(lens, m) && |bits| >= m && sym < |lens| && lens[sym] >= 1 && Codeword(lens, sym) <= bits
    ensures Symbol(lens, m, bits) == Ok(Reading(sym, lens[sym])) && |Codeword(lens, sym)| == lens[sym] <= m
  {
    hide Codeword, Code;
    CodewordLength(lens, sym);
    assert Matches(lens, sym, bits);
    if Complete(lens, m) {
      CompleteIsUniquelyDecodable(lens, bits, m);
    }
  }

  // ----- the precode -----

  /** The symbol whose length is written in place `i`: the three repeats, then no
      code at all, then outwards from 8, a step up and a step down in turn. */
  function SymbolAt(i: nat): (sym: nat)
    requires i < NUM_PRECODE_SYMS
    ensures sym < NUM_PRECODE_SYMS
  {
    if i < 3 then 16 + i else if i == 3 then 0 else if i % 2 == 0 then 8 + (i - 4) / 2 else 7 - (i - 5) / 2
  }

  function PlaceOf(sym: nat): (i: nat)
    requires sym < NUM_PRECODE_SYMS
    ensures i < NUM_PRECODE_SYMS
  {
    if sym >= 16 then sym - 16 else if sym == 0 then 3 else if sym >= 8 then 4 + 2 * (sym - 8) else 5 + 2 * (7 - sym)
  }

  /** Each symbol has exactly one place, and the reader's order is this one. */
  lemma PlacesOnce()
    ensures forall i :: 0 <= i < NUM_PRECODE_SYMS ==> PlaceOf(SymbolAt(i)) == i && PrecodeOrder(i) == SymbolAt(i)
    ensures forall sym :: 0 <= sym < NUM_PRECODE_SYMS ==> SymbolAt(PlaceOf(sym)) == sym
  {
  }

  /** The lengths in places `i` to `n`, three bits each, one lane each. */
  function PrecodeItems(lens: seq<nat>, i: nat, n: nat): seq<Item>
    requires |lens| == NUM_PRECODE_SYMS && i <= n <= NUM_PRECODE_SYMS
    decreases n - i
  {
    if i == n then [] else [Item(i, BitsOf(lens[SymbolAt(i)], 3), true)] + PrecodeItems(lens, i + 1, n)
  }

  /** The lengths whose place is below `n`; the others zero. */
  function Placed(lens: seq<nat>, n: nat): (placed: seq<nat>)
    requires |lens| == NUM_PRECODE_SYMS
    ensures |placed| == NUM_PRECODE_SYMS
    ensures forall sym :: 0 <= sym < NUM_PRECODE_SYMS ==> placed[sym] == if PlaceOf(sym) < n then lens[sym] else 0
  {
    seq(NUM_PRECODE_SYMS, sym requires 0 <= sym < |lens| == NUM_PRECODE_SYMS => if PlaceOf(sym) < n then lens[sym] else 0)
  }

  lemma PlaceOne(lens: seq<nat>, i: nat)
    requires |lens| == NUM_PRECODE_SYMS && i < NUM_PRECODE_SYMS
    ensures Placed(lens, i)[SymbolAt(i) := lens[SymbolAt(i)]] == Placed(lens, i + 1)
  {
    PlacesOnce();
  }

  /** The explicit precode lengths, read back into their symbols' places. */
  lemma {:induction false} PrecodeReads(page: seq<byte>, st: Streams, lens: seq<nat>, i: nat, n: nat)
    requires Ready(st) && st.cursor <= WordCount(page) && i <= n <= NUM_PRECODE_SYMS
    requires |lens| == NUM_PRECODE_SYMS && InRange(lens, MAX_PRECODE_LEN)
    requires Feed(page, st, PrecodeItems(lens, i, n)).Ok?
    ensures PrecodeLengths(page, st, Placed(lens, i), i, n)
         == Ok(Lengths(Feed(page, st, PrecodeItems(lens, i, n)).value, Placed(lens, n)))
    decreases n - i
  {
    hide BitsOf, Low, Feed, Refill, Placed, PrecodeOrder, SymbolAt, Total;
    if i < n {
      var v := lens[SymbolAt(i)];
      assert Pow2(3) == 8;
      ReadyItem(page, st, i, BitsOf(v, 3), PrecodeItems(lens, i + 1, n));
      FrontOf(BitsOf(v, 3), st.lanes[i], 0, 3);
      FieldOf(st.lanes[i], 0, v, 3);
      PlacesOnce();
      PlaceOne(lens, i);
      PrecodeReads(page, Refill(page, Consume(st, i, 3), i).value, lens, i + 1, n);
    } else {
      NothingFed(page, st);
    }
  }

  lemma NothingFed(page: seq<byte>, st: Streams)
    requires |st.lanes| == NUM_STREAMS
    ensures Feed(page, st, []) == Ok(st)
  {
  }

  lemma NonePlaced(lens: seq<nat>)
    requires |lens| == NUM_PRECODE_SYMS
    ensures Placed(lens, 0) == Repeat<nat>(0, NUM_PRECODE_SYMS)
  {
  }

  // ----- the runs -----

  /** The precode symbol of a run, and the bits behind its codeword (RFC 1951,
      3.2.7): lengths stand for themselves, 16 repeats the length before it three
      times or up to three more, 17 and 18 repeat zero. */
  function RunSymbol(run: Run): nat {
    match run
    case Explicit(len) => len
    case RepeatPrevious(_) => 16
    case Zeros(n) => if n <= 10 then 17 else 18
  }

  function RunExtra(run: Run): seq<bool> {
    match run
    case Explicit(_) => []
    case RepeatPrevious(n) => if n >= 3 then BitsOf(n - 3, 2) else []
    case Zeros(n) => if 3 <= n <= 10 then BitsOf(n - 3, 3) else if n >= 11 then BitsOf(n - 11, 7) else []
  }

  ghost predicate RunWritable(precode: seq<nat>, run: Run) {
    && |precode| == NUM_PRECODE_SYMS && RunSymbol(run) < NUM_PRECODE_SYMS && precode[RunSymbol(run)] >= 1
    && match run
       case Explicit(len) => len <= MAX_CODE_LEN
       case RepeatPrevious(n) => 3 <= n <= 6
       case Zeros(n) => 3 <= n <= 138
  }

  ghost function RunBits(precode: seq<nat>, run: Run): seq<bool>
    requires RunWritable(precode, run)
  {
    Codeword(precode, RunSymbol(run)) + RunExtra(run)
  }

  lemma SmallFields()
    ensures Pow2(2) == 4 && Pow2(3) == 8 && Pow2(7) == 128
  {
    assert Pow2(7) == 128;
  }

  lemma RunIsRead(precode: seq<nat>, run: Run, bits: seq<bool>)
    requires PrecodeOk(precode) && RunWritable(precode, run) && |bits| >= LOW_WATERMARK_BITS && RunBits(precode, run) <= bits
    ensures ReadRun(precode, bits) == Ok(Reading(run, |RunBits(precode, run)|)) && |RunBits(precode, run)| <= 14
  {
    hide Symbol, Codeword, BitsOf, Low, Pow2, IsCode;
    var sym := RunSymbol(run);
    var w, extra := Codeword(precode, sym), RunExtra(run);
    assert w <= bits;
    SymbolIsRead(precode, MAX_PRECODE_LEN, sym, bits);
    SmallFields();
    FrontOf(w + extra, bits, |w|, |w| + |extra|);
    assert (w + extra)[|w|..|w| + |extra|] == extra;
    match run
    case Explicit(_) =>
    case RepeatPrevious(n) => FieldOf(bits, |w|, n - 3, 2);
    case Zeros(n) => if n <= 10 { FieldOf(bits, |w|, n - 3, 3); } else { FieldOf(bits, |w|, n - 11, 7); }
  }

  ghost predicate RunsWritable(precode: seq<nat>, runs: seq<Run>) {
    forall i :: 0 <= i < |runs| ==> RunWritable(precode, runs[i])
  }

  /** The runs, one a lane from lane `l` on. */
  ghost function RunItems(precode: seq<nat>, runs: seq<Run>, l: nat): seq<Item>
    requires RunsWritable(precode, runs) && l < NUM_STREAMS
    decreases |runs|
  {
    if runs == [] then []
    else [Item(l, RunBits(precode, runs[0]), true)] + RunItems(precode, runs[1..], NextLane(l))
  }

  /** Runs that are written are the runs that are read. */
  lemma {:induction false} RunsAreRead(page: seq<byte>, precode: seq<nat>, st: Streams, runs: seq<Run>, l: nat)
    requires PrecodeOk(precode) && Ready(st) && st.cursor <= WordCount(page) && l < NUM_STREAMS
    requires RunsWritable(precode, runs) && Feed(page, st, RunItems(precode, runs, l)).Ok?
    ensures var read := ReadRuns(page, precode, st, l, |runs|);
            read.Ok? && read.value.runs == runs && read.value.st == Feed(page, st, RunItems(precode, runs, l)).value
    decreases |runs|
  {
    hide ReadRun, PrecodeOk, RunWritable, RunBits, Refill, Feed, Total;
    if runs == [] {
      NothingFed(page, st);
    } else {
      var bits := RunBits(precode, runs[0]);
      RunWidth(precode, runs[0]);
      ReadyItem(page, st, l, bits, RunItems(precode, runs[1..], NextLane(l)));
      RunIsRead(precode, runs[0], st.lanes[l]);
      RunsAreRead(page, precode, Refill(page, Consume(st, l, |bits|), l).value, runs[1..], NextLane(l));
      ReadRunsUnfold(page, precode, st, l, |runs|);
      assert [runs[0]] + runs[1..] == runs;
    }
  }

  lemma RunWidth(precode: seq<nat>, run: Run)
    requires PrecodeOk(precode) && RunWritable(precode, run)
    ensures |RunBits(precode, run)| <= 14
  {
    hide BitsOf, Code;
    CodewordLength(precode, RunSymbol(run));
  }

  // ----- the header of a dynamic block -----

  /** What the header says: how many lengths of each alphabet, how many explicit
      precode lengths, the precode, and the runs that give the lengths. */
  datatype DynamicHeader = DynamicHeader(litlen: nat, dist: nat, explicit: nat, precode: seq<nat>, runs: seq<Run>)

  /** The lengths the runs write. */
  function Lens(h: DynamicHeader): seq<nat> {
    Unrun([], h.runs)
  }

  ghost predicate HeaderWritable(h: DynamicHeader) {
    && 257 <= h.litlen <= NUM_LITLEN_SYMS && 1 <= h.dist <= NUM_DIST_SYMS && 4 <= h.explicit <= NUM_PRECODE_SYMS
    && |h.precode| == NUM_PRECODE_SYMS && Placed(h.precode, h.explicit) == h.precode
    && Verdict(h.precode, NUM_PRECODE_SYMS, MAX_PRECODE_LEN).Ok?
    && RunsWritable(h.precode, h.runs) && Runnable([], h.runs) && RunsLength(h.runs) == h.litlen + h.dist == |Lens(h)|
    && Verdict(Lens(h)[..h.litlen], NUM_LITLEN_SYMS, MAX_CODE_LEN).Ok?
    && Verdict(Lens(h)[h.litlen..], NUM_DIST_SYMS, MAX_CODE_LEN).Ok?
  }

  ghost function CodesOf(h: DynamicHeader): (c: Codes)
    requires HeaderWritable(h)
    ensures CodesOk(c)
  {
    VerdictIsCode(Lens(h)[..h.litlen], NUM_LITLEN_SYMS, MAX_CODE_LEN);
    VerdictIsCode(Lens(h)[h.litlen..], NUM_DIST_SYMS, MAX_CODE_LEN);
    Codes(Lens(h)[..h.litlen], Lens(h)[h.litlen..])
  }

  function CountsBits(h: DynamicHeader): (bits: seq<bool>)
    requires 257 <= h.litlen && 1 <= h.dist && 4 <= h.explicit
    ensures |bits| == 14
  {
    BitsOf(h.litlen - 257, 5) + BitsOf(h.dist - 1, 5) + BitsOf(h.explicit - 4, 4)
  }

  ghost function HeaderItems(h: DynamicHeader): seq<Item>
    requires HeaderWritable(h)
  {
    [Item(0, CountsBits(h), true)] + (PrecodeItems(h.precode, 0, h.explicit) + RunItems(h.precode, h.runs, 0))
  }

  lemma CountsAreRead(h: DynamicHeader, st: Streams)
    requires Ready(st) && CountsBits.requires(h) && CountsBits(h) <= st.lanes[0]
    requires h.litlen <= NUM_LITLEN_SYMS && h.dist <= NUM_DIST_SYMS && h.explicit <= NUM_PRECODE_SYMS
    ensures ReadCounts(st) == Counts(h.litlen, h.dist, h.explicit, Consume(st, 0, 14))
  {
    hide BitsOf, Low;
    var bits, w := st.lanes[0], CountsBits(h);
    assert Pow2(5) == 32 && Pow2(4) == 16;
    FrontOf(w, bits, 0, 5);
    FrontOf(w, bits, 5, 10);
    FrontOf(w, bits, 10, 14);
    assert w[0..5] == BitsOf(h.litlen - 257, 5) && w[5..10] == BitsOf(h.dist - 1, 5) && w[10..14] == BitsOf(h.explicit - 4, 4);
    FieldOf(bits, 0, h.litlen - 257, 5);
    FieldOf(bits, 5, h.dist - 1, 5);
    FieldOf(bits, 10, h.explicit - 4, 4);
  }

  /** The precode and the runs, read back as the lengths they write. */
  lemma VectorsAreRead(page: seq<byte>, st: Streams, h: DynamicHeader, c: Counts)
    requires Ready(st) && st.cursor <= WordCount(page) && HeaderWritable(h)
    requires c.litlen == h.litlen && c.dist == h.dist && c.precode == h.explicit
    requires Feed(page, st, PrecodeItems(h.precode, 0, h.explicit) + RunItems(h.precode, h.runs, 0)).Ok?
    ensures ReadWithPrecode(page, st, c)
         == Ok(Vectors(Feed(page, st, PrecodeItems(h.precode, 0, h.explicit) + RunItems(h.precode, h.runs, 0)).value,
                       Lens(h)[..h.litlen], Lens(h)[h.litlen..]))
  {
    hide Feed, Refill, Verdict, PrecodeLengths, Expand, ReadRuns, ReadRun, ReadWithPrecode, PrecodeItems, RunItems, Placed, RunsWritable, Runnable, Fills, Total, IsCode, PrecodeOk;
    VerdictInRange(h.precode, NUM_PRECODE_SYMS, MAX_PRECODE_LEN);
    FeedJoin(page, st, PrecodeItems(h.precode, 0, h.explicit), RunItems(h.precode, h.runs, 0));
    NonePlaced(h.precode);
    PrecodeReads(page, st, h.precode, 0, h.explicit);
    var st1 := Feed(page, st, PrecodeItems(h.precode, 0, h.explicit)).value;
    PrecodeUnfold(page, st, c);
    RunsAreRead(page, h.precode, st1, h.runs, 0);
    FillsAll(page, st1, h);
    NoneInRange();
    FilledExpands(page, h.precode, st1, [], h.litlen + h.dist, 0, |h.runs|);
  }

  lemma NoneInRange()
    ensures InRange([], MAX_CODE_LEN)
  {
  }

  /** A header that is written reads back as its two vectors. */
  lemma HeaderIsRead(page: seq<byte>, st: Streams, h: DynamicHeader)
    requires Ready(st) && st.cursor <= WordCount(page) && HeaderWritable(h) && Feed(page, st, HeaderItems(h)).Ok?
    ensures ReadDynamic(page, st) == Ok(Dynamic(Feed(page, st, HeaderItems(h)).value, CodesOf(h)))
  {
    hide Feed, Refill, Verdict, Expand, ReadRuns, ReadWithPrecode, ReadCounts, CountsBits, PrecodeItems, RunItems, Placed, RunsWritable, Runnable, Total, Lens, RunsLength, Ready;
    ReadyItem(page, st, 0, CountsBits(h), PrecodeItems(h.precode, 0, h.explicit) + RunItems(h.precode, h.runs, 0));
    CountsAreRead(h, st);
    VectorsAreRead(page, Refill(page, Consume(st, 0, 14), 0).value, h, ReadCounts(st));
  }

  lemma FillsAll(page: seq<byte>, st: Streams, h: DynamicHeader)
    requires PrecodeOk(h.precode) && Ready(st) && st.cursor <= WordCount(page) && HeaderWritable(h)
    requires var read := ReadRuns(page, h.precode, st, 0, |h.runs|); read.Ok? && read.value.runs == h.runs
    ensures Fills(page, h.precode, st, [], h.litlen + h.dist, 0, |h.runs|)
  {
  }

  lemma VerdictInRange(lens: seq<nat>, cap: nat, m: nat)
    requires Verdict(lens, cap, m).Ok?
    ensures InRange(lens, m)
  {
  }
}
