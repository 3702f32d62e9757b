/** Whole pages, written and read back: blocks of any kind one behind another,
    with matches that reach as far as the output does. */
module PageRoundTrip {
  import opened Bits
  import opened CanonicalCode
  import opened Schedule
  import opened HuffTable
  import opened Lz77
  import opened PageSpec
  import opened PageDecode
  import opened PageTheorems
  import opened PageWriter
  import opened CodeWriter
  import opened BlockWriter

  // ----- one block -----

  /** A block to write: stored bytes, or pieces under the fixed codes or under
      codes of the block's own. */
  datatype Written = Raw(bytes: seq<byte>) | Fixed(w: seq<Piece>) | Own(h: DynamicHeader, w: seq<Piece>)

  function KindOf(b: Written): BlockType {
    match b
    case Raw(_) => Stored
    case Fixed(_) => Static
    case Own(_, _) => DynamicHuffman
  }

  function Literals(bytes: seq<byte>): (tokens: seq<Token>)
    ensures |tokens| == |bytes| && forall i :: 0 <= i < |bytes| ==> tokens[i] == Literal(bytes[i])
  {
    seq(|bytes|, i requires 0 <= i < |bytes| => Literal(bytes[i]))
  }

  predicate BlockKnown(b: Written) {
    match b
    case Raw(_) => true
    case Fixed(w) => AllKnown(w)
    case Own(_, w) => AllKnown(w)
  }

  function TokensOf(b: Written): seq<Token>
    requires BlockKnown(b)
  {
    match b
    case Raw(bytes) => Literals(bytes)
    case Fixed(w) => Tokens(w)
    case Own(_, w) => Tokens(w)
  }

  /** The block can be written behind these tokens: its symbols have codewords, its
      matches reach no further than the output, and it fits. */
  ghost predicate BlockOk(b: Written, prior: seq<Token>, cap: nat) {
    && BlockKnown(b) && WellFormed(prior + TokensOf(b)) && OutLen(prior + TokensOf(b)) <= cap
    && match b
       case Raw(bytes) => |bytes| < 0x1_0000
       case Fixed(w) => BlockWriter.Writable(StaticCodes(), w)
       case Own(h, w) => HeaderWritable(h) && BlockWriter.Writable(CodesOf(h), w)
  }

  /** The type's two bits, low bit first (RFC 1951, 3.2.3). */
  function KindBits(kind: BlockType): seq<bool> {
    match kind
    case Stored => [false, false]
    case Static => [true, false]
    case DynamicHuffman => [false, true]
  }

  /** One byte a lane. */
  function ByteItems(bytes: seq<byte>, l: nat): (items: seq<Item>)
    requires l < NUM_STREAMS
    decreases |bytes|
  {
    if bytes == [] then [] else [Item(l, BitsOf(bytes[0], 8), true)] + ByteItems(bytes[1..], NextLane(l))
  }

  function NoneOwing(): (pend: seq<Pending>)
    ensures |pend| == NUM_STREAMS && forall l :: 0 <= l < NUM_STREAMS ==> pend[l] == Idle
  {
    Repeat(Idle, NUM_STREAMS)
  }

  ghost function BodyItems(b: Written, prior: seq<Token>, cap: nat): seq<Item>
    requires BlockOk(b, prior, cap)
  {
    match b
    case Raw(bytes) => [Item(0, BitsOf(|bytes|, 16), false)] + ByteItems(bytes, 0)
    case Fixed(w) => CodedItems(StaticCodes(), w, |prior|, NoneOwing(), 0, 0)
    case Own(h, w) => HeaderItems(h) + CodedItems(CodesOf(h), w, |prior|, NoneOwing(), 0, 0)
  }

  /** The final mark and the type on lane 0, then the body. */
  ghost function BlockItems(b: Written, prior: seq<Token>, cap: nat, final: bool): seq<Item>
    requires BlockOk(b, prior, cap)
  {
    [Item(0, [final] + KindBits(KindOf(b)), true)] + BodyItems(b, prior, cap)
  }

  // ----- reading one block -----

  /** The three bits of a header, read back. */
  lemma HeaderTold(page: seq<byte>, st: Streams, final: bool, kind: BlockType, rest: seq<Item>)
    requires AtBlock(page, st) && Feed(page, st, [Item(0, [final] + KindBits(kind), true)] + rest).Ok?
    ensures var h := ReadHeader(page, st);
            && h.Ok? && h.value.final == final && h.value.kind == kind
            && Feed(page, st, [Item(0, [final] + KindBits(kind), true)] + rest) == Feed(page, h.value.st, rest)
  {
    hide Feed, Total;
    var bits, w := st.lanes[0], [final] + KindBits(kind);
    ItemRead(page, st, 0, w, rest);
    FrontOf(w, bits, 0, 3);
    assert bits[0] == w[0] && bits[1] == w[1] && bits[2] == w[2];
    assert bits[1..3] == [bits[1], bits[2]];
    TwoBits(bits[1], bits[2]);
  }

  lemma ByteIsTold(bits: seq<bool>, b: byte)
    requires |bits| >= 8 && BitsOf(b, 8) <= bits
    ensures Low(bits[..8]) == b
  {
    hide Low;
    assert Pow2(8) == 0x100;
    FrontOf(BitsOf(b, 8), bits, 0, 8);
    FieldOf(bits, 0, b, 8);
    assert bits[0..8] == bits[..8];
  }

  /** Stored bytes, read back. */
  lemma {:induction false} BytesAreRead(page: seq<byte>, st: Streams, prior: seq<Token>, bytes: seq<byte>, l: nat)
    requires AtBlock(page, st) && Settled(prior) && l < NUM_STREAMS && Feed(page, st, ByteItems(bytes, l)).Ok?
    ensures StoredBytes(page, st, prior, l, |bytes|) == Ok(Body(Feed(page, st, ByteItems(bytes, l)).value, prior + Literals(bytes)))
    decreases |bytes|
  {
    hide Feed, StoredBytes, Refill, BitsOf, Low, Total;
    if bytes == [] {
      NothingFed(page, st);
      StoredEnds(page, st, prior, l);
      assert prior + Literals(bytes) == prior;
    } else {
      ItemRead(page, st, l, BitsOf(bytes[0], 8), ByteItems(bytes[1..], NextLane(l)));
      ByteIsTold(st.lanes[l], bytes[0]);
      StoredUnfold(page, st, prior, l, |bytes|, bytes[0]);
      BytesAreRead(page, Refill(page, Consume(st, l, 8), l).value, prior + [Literal(bytes[0])], bytes[1..], NextLane(l));
      assert prior + [Literal(bytes[0])] + Literals(bytes[1..]) == prior + Literals(bytes);
    }
  }

  lemma {:induction false} ByteItemsSpend(bytes: seq<byte>, l: nat)
    requires l < NUM_STREAMS
    ensures BitsIn(ByteItems(bytes, l)) == 8 * |bytes|
    decreases |bytes|
  {
    if bytes != [] {
      ByteItemsSpend(bytes[1..], NextLane(l));
      assert ByteItems(bytes, l)[1..] == ByteItems(bytes[1..], NextLane(l));
    }
  }

  /** A stored block, read back: the length is what is there, so the bound on what
      the page has left admits it. */
  lemma RawIsRead(page: seq<byte>, cap: nat, st: Streams, prior: seq<Token>, bytes: seq<byte>)
    requires Ready(st) && st.cursor <= WordCount(page) && BlockOk(Raw(bytes), prior, cap)
    requires Settled(prior) && OutLen(prior) <= cap
    requires Feed(page, st, BodyItems(Raw(bytes), prior, cap)).Ok?
    ensures StoredBlock(page, cap, st, prior) == Ok(Body(Feed(page, st, BodyItems(Raw(bytes), prior, cap)).value, prior + Literals(bytes)))
  {
    hide Feed, StoredBytes, BitsOf, Low, Total, OutLen, ByteItems;
    var n := |bytes|;
    FeedUnfold(page, st, Item(0, BitsOf(n, 16), false), ByteItems(bytes, 0));
    BytePowers();
    FrontOf(BitsOf(n, 16), st.lanes[0], 0, 16);
    FieldOf(st.lanes[0], 0, n, 16);
    assert st.lanes[0][0..16] == st.lanes[0][..16];
    var behind := Consume(st, 0, 16);
    ConsumeSpends(page, st, 0, 16);
    FeedSpends(page, behind, ByteItems(bytes, 0));
    ByteItemsSpend(bytes, 0);
    LiteralsLength(prior, bytes);
    BytesAreRead(page, behind, prior, bytes, 0);
  }

  lemma {:induction false} LiteralsLength(prior: seq<Token>, bytes: seq<byte>)
    ensures OutLen(prior + Literals(bytes)) == OutLen(prior) + |bytes|
  {
    if bytes == [] {
      assert prior + Literals(bytes) == prior;
    } else {
      var n := |bytes| - 1;
      LiteralsLength(prior, bytes[..n]);
      assert (prior + Literals(bytes))[..|prior| + n] == prior + Literals(bytes[..n]);
    }
  }

  /** Pieces under some codes, read back. */
  lemma CodedIsRead(page: seq<byte>, c: Codes, cap: nat, st: Streams, prior: seq<Token>, w: seq<Piece>)
    requires Ready(st) && st.cursor <= WordCount(page) && BlockFits(c, prior, w, cap) && BlockWriter.Writable(c, w) && CodesOk(c)
    requires Settled(prior) && OutLen(prior) <= cap
    requires Feed(page, st, CodedItems(c, w, |prior|, NoneOwing(), 0, 0)).Ok?
    ensures CodedBlock(page, cap, st, prior, c)
         == Ok(Body(Feed(page, st, CodedItems(c, w, |prior|, NoneOwing(), 0, 0)).value, Target(prior, w)))
  {
    hide Feed, Symbols, CodedItems, BlockFits, OutLen, Target, BlockWriter.Writable, CodesOk, Total;
    FitsSays(c, prior, w, cap);
    var p := Parse(st, prior, Repeat(Idle, NUM_STREAMS));
    assert NoneOwing() == Repeat(Idle, NUM_STREAMS);
    CodedReads(page, c, cap, p, 0, prior, w, 0);
  }

  /** A body that is written is read back as the tokens it wrote. */
  lemma BodyIsRead(page: seq<byte>, cap: nat, st: Streams, prior: seq<Token>, b: Written)
    requires Ready(st) && st.cursor <= WordCount(page) && BlockOk(b, prior, cap) && Settled(prior) && OutLen(prior) <= cap
    requires Feed(page, st, BodyItems(b, prior, cap)).Ok?
    ensures BlockBody(page, cap, st, prior, KindOf(b)) == Ok(Body(Feed(page, st, BodyItems(b, prior, cap)).value, prior + TokensOf(b)))
  {
    hide Feed, CodedBlock, StoredBlock, CodedItems, HeaderItems, OutLen, BlockWriter.Writable, WellFormed, HeaderWritable, ReadDynamic, Total, ByteItems, Literals;
    match b
    case Raw(bytes) => RawIsRead(page, cap, st, prior, bytes);
    case Fixed(w) => CodedIsRead(page, StaticCodes(), cap, st, prior, w);
    case Own(h, w) =>
      FeedJoin(page, st, HeaderItems(h), CodedItems(CodesOf(h), w, |prior|, NoneOwing(), 0, 0));
      HeaderIsRead(page, st, h);
      CodedIsRead(page, CodesOf(h), cap, ReadDynamic(page, st).value.st, prior, w);
  }

  /** A block that is written is read back. */
  lemma BlockIsRead(page: seq<byte>, cap: nat, st: Streams, prior: seq<Token>, b: Written, final: bool, rest: seq<Item>, blocks: seq<Block>)
    requires AtBlock(page, st) && BlockOk(b, prior, cap) && Feed(page, st, BlockItems(b, prior, cap, final) + rest).Ok?
    requires Settled(prior) && BytesOf(blocks) == OutLen(prior) <= cap
    ensures var r := OneBlock(page, cap, Body(st, prior), blocks);
            && r.Ok? && r.value.final == final && r.value.body.tokens == prior + TokensOf(b)
            && r.value.blocks == blocks + [Record(b)]
            && Feed(page, st, BlockItems(b, prior, cap, final) + rest) == Feed(page, r.value.body.st, rest)
  {
    hide Feed, BodyItems, OutLen, ReadHeader, BlockBody, BlockOk, TokensOf, Total;
    KnownBlock(b, prior, cap);
    var head, body := [Item(0, [final] + KindBits(KindOf(b)), true)], BodyItems(b, prior, cap);
    assert BlockItems(b, prior, cap, final) + rest == head + (body + rest);
    HeaderTold(page, st, final, KindOf(b), body + rest);
    var st1 := ReadHeader(page, st).value.st;
    FeedJoin(page, st1, body, rest);
    OutLenJoin(prior, TokensOf(b));
    BodyIsRead(page, cap, st1, prior, b);
  }

  lemma KnownBlock(b: Written, prior: seq<Token>, cap: nat)
    requires BlockOk(b, prior, cap)
    ensures BlockKnown(b)
  {
  }

  /** What the census is told of a block. */
  function Record(b: Written): Block
    requires BlockKnown(b)
  {
    Block(KindOf(b), OutLen(TokensOf(b)))
  }

  lemma {:induction false} OutLenJoin(a: seq<Token>, b: seq<Token>)
    ensures OutLen(a + b) == OutLen(a) + OutLen(b)
  {
    if b == [] {
      assert a + b == a;
    } else {
      OutLenJoin(a, b[..|b| - 1]);
      assert (a + b)[..|a + b| - 1] == a + b[..|b| - 1];
    }
  }

  // ----- a whole page -----

  /** Every block can be written behind those before it. */
  ghost predicate PageOk(bs: seq<Written>, prior: seq<Token>, cap: nat)
    decreases |bs|
  {
    bs == [] || (BlockOk(bs[0], prior, cap) && PageOk(bs[1..], prior + TokensOf(bs[0]), cap))
  }

  ghost function PageItems(bs: seq<Written>, prior: seq<Token>, cap: nat): seq<Item>
    requires PageOk(bs, prior, cap)
    decreases |bs|
  {
    if bs == [] then []
    else BlockItems(bs[0], prior, cap, |bs| == 1) + PageItems(bs[1..], prior + TokensOf(bs[0]), cap)
  }

  predicate PageKnown(bs: seq<Written>) {
    forall i :: 0 <= i < |bs| ==> BlockKnown(bs[i])
  }

  /** The tokens of the blocks, one behind another. */
  function AllTokens(bs: seq<Written>): seq<Token>
    requires PageKnown(bs)
  {
    if bs == [] then [] else TokensOf(bs[0]) + AllTokens(bs[1..])
  }

  function Records(bs: seq<Written>): (records: seq<Block>)
    requires PageKnown(bs)
  {
    if bs == [] then [] else [Record(bs[0])] + Records(bs[1..])
  }

  lemma {:induction false} KnownPage(bs: seq<Written>, prior: seq<Token>, cap: nat)
    requires PageOk(bs, prior, cap)
    ensures PageKnown(bs)
    decreases |bs|
  {
    hide BlockOk, TokensOf;
    if bs != [] {
      KnownBlock(bs[0], prior, cap);
      KnownPage(bs[1..], prior + TokensOf(bs[0]), cap);
    }
  }

  lemma {:induction false} BlocksAreRead(page: seq<byte>, cap: nat, st: Streams, prior: seq<Token>, bs: seq<Written>, blocks: seq<Block>)
    requires AtBlock(page, st) && bs != [] && PageOk(bs, prior, cap) && PageKnown(bs) && Feed(page, st, PageItems(bs, prior, cap)).Ok?
    requires Settled(prior) && BytesOf(blocks) == OutLen(prior) <= cap
    ensures Blocks(page, cap, Body(st, prior), blocks) == Ok(Page(prior + AllTokens(bs), blocks + Records(bs)))
    ensures BlocksRead(page, cap, Body(st, prior), blocks) == |bs|
    decreases |bs|
  {
    hide Feed, OneBlock, OutLen, BlockOk, BlockItems, TokensOf, Blocks, BlocksRead, Record, Total, PageOk, PageItems, AllTokens, Records, AtBlock, Settled, BytesOf;
    PageUnfold(bs, prior, cap);
    var tokens := prior + TokensOf(bs[0]);
    BlockIsRead(page, cap, st, prior, bs[0], |bs| == 1, PageItems(bs[1..], tokens, cap), blocks);
    BlocksUnfold(page, cap, Body(st, prior), blocks);
    var next := OneBlock(page, cap, Body(st, prior), blocks).value;
    if |bs| == 1 {
      NoBlocks(bs[1..]);
      assert prior + AllTokens(bs) == tokens;
      assert blocks + Records(bs) == next.blocks;
    } else {
      BlocksAreRead(page, cap, next.body.st, tokens, bs[1..], next.blocks);
      assert tokens + AllTokens(bs[1..]) == prior + AllTokens(bs);
      assert next.blocks + Records(bs[1..]) == blocks + Records(bs);
    }
  }

  lemma PageUnfold(bs: seq<Written>, prior: seq<Token>, cap: nat)
    requires bs != [] && PageOk(bs, prior, cap) && PageKnown(bs)
    ensures BlockOk(bs[0], prior, cap) && PageOk(bs[1..], prior + TokensOf(bs[0]), cap) && PageKnown(bs[1..])
    ensures PageItems(bs, prior, cap)
         == BlockItems(bs[0], prior, cap, |bs| == 1) + PageItems(bs[1..], prior + TokensOf(bs[0]), cap)
    ensures AllTokens(bs) == TokensOf(bs[0]) + AllTokens(bs[1..]) && Records(bs) == [Record(bs[0])] + Records(bs[1..])
  {
    hide BlockOk, BlockItems, TokensOf, Record;
  }

  lemma NoBlocks(bs: seq<Written>)
    requires bs == []
    ensures AllTokens(bs) == [] && Records(bs) == []
  {
  }

  // ----- its schedule -----

  lemma {:induction false} CodedSteady(c: Codes, w: seq<Piece>, n0: nat, pend: seq<Pending>, i: nat, l: nat)
    requires CodesOk(c) && BlockWriter.Writable(c, w) && Owed(w, n0, pend) && l < NUM_STREAMS && i <= |w|
    ensures Steady(CodedItems(c, w, n0, pend, i, l), LOW_WATERMARK_BITS)
    decreases 2 * (|w| - i) + PendCount(pend)
  {
    hide CodesOk, BlockWriter.Writable, CodedItem, PendCount;
    PieceWidth(c, w, n0, pend, i, l);
    ItemIsDue(c, w, n0, pend, i, l);
    if pend[l].Owes? {
      CodedSteady(c, w, n0, OwedNext(w, n0, pend, i, l), i, NextLane(l));
    } else if i < |w| {
      CodedSteady(c, w, n0, OwedNext(w, n0, pend, i, l), i + 1, NextLane(l));
    } else {
      DrainSteady(c, w, n0, pend, NextLane(l), NUM_STREAMS - 1);
    }
  }

  lemma ItemIsDue(c: Codes, w: seq<Piece>, n0: nat, pend: seq<Pending>, i: nat, l: nat)
    requires BlockWriter.Writable(c, w) && Owed(w, n0, pend) && l < NUM_STREAMS && i <= |w|
    ensures CodedItem(c, w, n0, pend, i, l).lane == l && CodedItem(c, w, n0, pend, i, l).due
  {
  }

  lemma {:induction false} DrainSteady(c: Codes, w: seq<Piece>, n0: nat, pend: seq<Pending>, l: nat, n: nat)
    requires CodesOk(c) && BlockWriter.Writable(c, w) && Owed(w, n0, pend) && l < NUM_STREAMS
    ensures Steady(DrainItems(c, w, n0, pend, l, n), LOW_WATERMARK_BITS)
    decreases n
  {
    hide CodesOk, DistanceBits, PieceWritable;
    if n > 0 {
      if pend[l].Owes? { PieceWidths(c, w[pend[l].token - n0]); }
      DrainSteady(c, w, n0, pend[l := Idle], NextLane(l), n - 1);
    }
  }

  lemma {:induction false} BytesSteady(bytes: seq<byte>, l: nat)
    requires l < NUM_STREAMS
    ensures Steady(ByteItems(bytes, l), 16)
    decreases |bytes|
  {
    hide BitsOf;
    if bytes != [] { BytesSteady(bytes[1..], NextLane(l)); }
  }

  lemma {:induction false} PrecodeSteady(lens: seq<nat>, i: nat, n: nat)
    requires |lens| == NUM_PRECODE_SYMS && i <= n <= NUM_PRECODE_SYMS
    ensures Steady(PrecodeItems(lens, i, n), LOW_WATERMARK_BITS)
    decreases n - i
  {
    hide BitsOf;
    if i < n { PrecodeSteady(lens, i + 1, n); }
  }

  lemma {:induction false} RunsSteady(precode: seq<nat>, runs: seq<Run>, l: nat)
    requires PrecodeOk(precode) && RunsWritable(precode, runs) && l < NUM_STREAMS
    ensures Steady(RunItems(precode, runs, l), LOW_WATERMARK_BITS)
    decreases |runs|
  {
    hide RunBits, PrecodeOk, RunWritable;
    if runs != [] {
      RunWidth(precode, runs[0]);
      RunsSteady(precode, runs[1..], NextLane(l));
    }
  }

  lemma HeaderSteady(h: DynamicHeader)
    requires HeaderWritable(h)
    ensures Steady(HeaderItems(h), LOW_WATERMARK_BITS)
  {
    hide PrecodeItems, RunItems, CountsBits, Verdict, Lens;
    VerdictIsCode(h.precode, NUM_PRECODE_SYMS, MAX_PRECODE_LEN);
    PrecodeSteady(h.precode, 0, h.explicit);
    RunsSteady(h.precode, h.runs, 0);
  }

  lemma BodySchedules(lefts: seq<nat>, b: Written, prior: seq<Token>, cap: nat)
    requires AtLevel(lefts, LOW_WATERMARK_BITS) && BlockOk(b, prior, cap)
    ensures Schedulable(lefts, BodyItems(b, prior, cap)) && AtLevel(Levels(lefts, BodyItems(b, prior, cap)), 16)
  {
    hide CodedItems, HeaderItems, ByteItems, BitsOf, WellFormed, OutLen, BlockWriter.Writable, HeaderWritable, TokensOf, Schedulable, Levels;
    match b {
      case Raw(bytes) =>
        LengthSchedules(lefts, BitsOf(|bytes|, 16));
        BytesSteady(bytes, 0);
        SteadySchedules(Levels(lefts, [Item(0, BitsOf(|bytes|, 16), false)]), ByteItems(bytes, 0), 16);
        ScheduleJoin(lefts, [Item(0, BitsOf(|bytes|, 16), false)], ByteItems(bytes, 0));
      case Fixed(w) =>
        CodedSteady(StaticCodes(), w, |prior|, NoneOwing(), 0, 0);
        SteadySchedules(lefts, BodyItems(b, prior, cap), LOW_WATERMARK_BITS);
      case Own(h, w) =>
        HeaderSteady(h);
        CodedSteady(CodesOf(h), w, |prior|, NoneOwing(), 0, 0);
        SteadySchedules(lefts, BodyItems(b, prior, cap), LOW_WATERMARK_BITS);
    }
  }

  /** From any level a block may start at, to such a level. */
  lemma BlockSchedules(lefts: seq<nat>, b: Written, prior: seq<Token>, cap: nat, final: bool)
    requires AtLevel(lefts, 16) && BlockOk(b, prior, cap)
    ensures Schedulable(lefts, BlockItems(b, prior, cap, final)) && AtLevel(Levels(lefts, BlockItems(b, prior, cap, final)), 16)
  {
    hide BlockOk, BodyItems, Schedulable, Levels;
    var head := [Item(0, [final] + KindBits(KindOf(b)), true)];
    HeadSchedules(lefts, head);
    BodySchedules(Levels(lefts, head), b, prior, cap);
    ScheduleJoin(lefts, head, BodyItems(b, prior, cap));
  }

  lemma HeadSchedules(lefts: seq<nat>, head: seq<Item>)
    requires AtLevel(lefts, 16) && |head| == 1 && head[0].lane == 0 && head[0].due && |head[0].bits| == 3
    ensures Schedulable(lefts, head) && AtLevel(Levels(lefts, head), LOW_WATERMARK_BITS)
  {
    assert head[1..] == [];
    assert Levels(lefts, head) == Levels(LeftsAfter(lefts, head[0]), head[1..]);
  }

  lemma LengthSchedules(lefts: seq<nat>, bits: seq<bool>)
    requires AtLevel(lefts, LOW_WATERMARK_BITS) && |bits| == 16
    ensures Schedulable(lefts, [Item(0, bits, false)]) && AtLevel(Levels(lefts, [Item(0, bits, false)]), 16)
  {
    var it := [Item(0, bits, false)];
    assert it[1..] == [];
    assert Levels(lefts, it) == Levels(LeftsAfter(lefts, it[0]), it[1..]);
  }

  lemma {:induction false} PageSchedules(lefts: seq<nat>, bs: seq<Written>, prior: seq<Token>, cap: nat)
    requires AtLevel(lefts, 16) && PageOk(bs, prior, cap)
    ensures Schedulable(lefts, PageItems(bs, prior, cap))
    decreases |bs|
  {
    hide BlockOk, BlockItems, TokensOf;
    if bs != [] {
      KnownBlock(bs[0], prior, cap);
      BlockSchedules(lefts, bs[0], prior, cap, |bs| == 1);
      PageSchedules(Levels(lefts, BlockItems(bs[0], prior, cap, |bs| == 1)), bs[1..], prior + TokensOf(bs[0]), cap);
      ScheduleJoin(lefts, BlockItems(bs[0], prior, cap, |bs| == 1), PageItems(bs[1..], prior + TokensOf(bs[0]), cap));
    }
  }

  /** The page of these blocks, with any words behind it. */
  ghost function PageBytes(bs: seq<Written>, cap: nat, more: seq<seq<bool>>): seq<byte>
    requires PageOk(bs, [], cap)
  {
    PageSchedules(Repeat(BITS_PER_PACKET, NUM_STREAMS), bs, [], cap);
    WritePage(PageItems(bs, [], cap), more)
  }

  /** A page that says what some blocks wrote is accepted, and read as those blocks
      and their tokens. */
  lemma FedPageIsRead(page: seq<byte>, bs: seq<Written>, cap: nat)
    requires bs != [] && PageOk(bs, [], cap) && Primed(page).Ok? && Feed(page, Primed(page).value, PageItems(bs, [], cap)).Ok?
    ensures PageKnown(bs) && ReadPage(page, cap) == Ok(Page(AllTokens(bs), Records(bs))) && PageBlocks(page, cap) == |bs|
  {
    hide PageItems, PageOk, Feed, Blocks, BlocksRead, Primed, Records, AllTokens;
    PrimedConserves(page);
    PrimedFits(page);
    KnownPage(bs, [], cap);
    BlocksAreRead(page, cap, Primed(page).value, [], bs, []);
    assert [] + Records(bs) == Records(bs) && [] + AllTokens(bs) == AllTokens(bs);
  }

  /** Every list of blocks that can be written has a page, whatever words are
      behind, and that page is read as just those blocks and their tokens. */
  lemma WrittenPageIsRead(bs: seq<Written>, cap: nat, more: seq<seq<bool>>)
    requires bs != [] && PageOk(bs, [], cap) && forall j :: 0 <= j < |more| ==> |more[j]| == BITS_PER_PACKET
    ensures var page := PageBytes(bs, cap, more);
            && PageKnown(bs) && ReadPage(page, cap) == Ok(Page(AllTokens(bs), Records(bs)))
            && PageBlocks(page, cap) == |bs|
  {
    hide WritePage, Schedulable, PageItems, PageOk, Feed, Primed, ReadPage, PageBlocks, Records, AllTokens;
    PageSchedules(Repeat(BITS_PER_PACKET, NUM_STREAMS), bs, [], cap);
    WrittenFeeds(PageItems(bs, [], cap), more);
    FedPageIsRead(PageBytes(bs, cap, more), bs, cap);
  }

  lemma PrimedFits(page: seq<byte>)
    requires Primed(page).Ok?
    ensures AtBlock(page, Primed(page).value)
  {
    PrimedConserves(page);
  }
}
