/** Texts as pages: any bytes under the fixed codes, each codeword as the number
    RFC 1951 gives for it, and under codes a header describes. */
module PageTexts {
  import opened Bits
  import opened CanonicalCode
  import opened Schedule
  import opened HuffTable
  import opened Lz77
  import opened PageSpec
  import PageDecode
  import opened PageTheorems
  import opened PageWriter
  import opened CodeWriter
  import opened BlockWriter
  import opened PageRoundTrip

  // ----- the fixed codewords -----

  /** The fixed codewords of section 3.2.6 of RFC 1951, as numbers and widths. */
  function FixedValue(sym: nat): nat
    requires sym < NUM_LITLEN_SYMS
  {
    if sym < 144 then 0x30 + sym else if sym < 256 then 0x190 + (sym - 144) else if sym < 280 then sym - 256 else 0xC0 + (sym - 280)
  }

  function FixedWidth(sym: nat): nat
    requires sym < NUM_LITLEN_SYMS
  {
    if sym < 144 then 8 else if sym < 256 then 9 else if sym < 280 then 7 else 8
  }

  function FixedBits(sym: nat): seq<bool>
    requires sym < NUM_LITLEN_SYMS
  {
    MsbBits(FixedValue(sym), FixedWidth(sym))
  }

  lemma {:induction false} CountOfRun(len: nat, n: nat, x: nat)
    ensures Count(Repeat(len, n), x) == if x == len then n else 0
  {
    if n > 0 {
      CountOfRun(len, n - 1, x);
      assert Repeat(len, n)[..n - 1] == Repeat(len, n - 1);
    }
  }

  lemma {:induction false} CountOfJoin(a: seq<nat>, b: seq<nat>, x: nat)
    ensures Count(a + b, x) == Count(a, x) + Count(b, x)
  {
    if b == [] {
      assert a + b == a;
    } else {
      CountOfJoin(a, b[..|b| - 1], x);
      assert (a + b)[..|a + b| - 1] == a + b[..|b| - 1];
    }
  }

  lemma CountOfFour(a: seq<nat>, b: seq<nat>, c: seq<nat>, d: seq<nat>, x: nat)
    ensures Count(a + b + c + d, x) == Count(a, x) + Count(b, x) + Count(c, x) + Count(d, x)
  {
    CountOfJoin(a + b + c, d, x);
    CountOfJoin(a + b, c, x);
    CountOfJoin(a, b, x);
  }

  /** How many fixed codewords of a length stand before a symbol. */
  lemma FixedCount(sym: nat, x: nat)
    requires sym <= NUM_LITLEN_SYMS
    ensures Count(STATIC_LITLEN[..sym], x)
         == (if x == 8 then (if sym < 144 then sym else 144) + (if sym < 280 then 0 else sym - 280)
             else if x == 9 then if sym < 144 then 0 else if sym < 256 then sym - 144 else 112
             else if x == 7 then if sym < 256 then 0 else if sym < 280 then sym - 256 else 24
             else 0)
  {
    hide Count;
    var a, b, c, d :=
      (if sym < 144 then sym else 144),
      (if sym < 144 then 0 else if sym < 256 then sym - 144 else 112),
      (if sym < 256 then 0 else if sym < 280 then sym - 256 else 24),
      (if sym < 280 then 0 else sym - 280);
    var r8, r9, r7, r8' := Repeat<nat>(8, a), Repeat<nat>(9, b), Repeat<nat>(7, c), Repeat<nat>(8, d);
    CountOfFour(r8, r9, r7, r8', x);
    CountOfRun(8, a, x);
    CountOfRun(9, b, x);
    CountOfRun(7, c, x);
    CountOfRun(8, d, x);
    assert STATIC_LITLEN[..sym] == r8 + r9 + r7 + r8';
  }

  lemma FixedStarts()
    ensures NextCode(STATIC_LITLEN, 7) == 0 && NextCode(STATIC_LITLEN, 8) == 0x30 && NextCode(STATIC_LITLEN, 9) == 0x190
  {
    hide Count;
    assert STATIC_LITLEN[..NUM_LITLEN_SYMS] == STATIC_LITLEN by { StaticCodesOk(); }
    FixedCount(NUM_LITLEN_SYMS, 7);
    FixedCount(NUM_LITLEN_SYMS, 8);
    NoShortCodes(7);
  }

  lemma {:induction false} NoShortCodes(len: nat)
    requires 1 <= len <= 7
    ensures NextCode(STATIC_LITLEN, len) == 0
  {
    hide Count;
    if len > 1 {
      NoShortCodes(len - 1);
      assert STATIC_LITLEN[..NUM_LITLEN_SYMS] == STATIC_LITLEN by { StaticCodesOk(); }
      FixedCount(NUM_LITLEN_SYMS, len - 1);
    }
  }

  /** The fixed codes are those numbers. */
  lemma FixedCodewords(sym: nat)
    requires sym < NUM_LITLEN_SYMS
    ensures |STATIC_LITLEN| == NUM_LITLEN_SYMS && STATIC_LITLEN[sym] == FixedWidth(sym)
    ensures Codeword(STATIC_LITLEN, sym) == FixedBits(sym)
  {
    hide Count, NextCode, MsbBits;
    StaticCodesOk();
    FixedStarts();
    FixedCount(sym, FixedWidth(sym));
  }

  /** The fixed distance codes are the symbols themselves, in five bits. */
  lemma FixedDistances(sym: nat)
    requires sym < NUM_DIST_SYMS
    ensures |STATIC_DIST| == NUM_DIST_SYMS && STATIC_DIST[sym] == 5 && Codeword(STATIC_DIST, sym) == MsbBits(sym, 5)
  {
    hide Count, MsbBits, NextCode;
    CountOfRun(5, sym, 5);
    assert STATIC_DIST[..sym] == Repeat<nat>(5, sym);
    NoShortDistances(5);
  }

  lemma {:induction false} NoShortDistances(len: nat)
    requires 1 <= len <= 5
    ensures NextCode(STATIC_DIST, len) == 0
  {
    hide Count;
    if len > 1 {
      NoShortDistances(len - 1);
      CountOfRun(5, NUM_DIST_SYMS, len - 1);
      assert STATIC_DIST == Repeat<nat>(5, NUM_DIST_SYMS);
    }
  }

  // ----- a text in one fixed block -----

  /** The bytes, one codeword a lane, then the end of the block, then every other
      lane's last refill. */
  function TextItems(text: seq<byte>, l: nat): seq<Item>
    requires l < NUM_STREAMS
    decreases |text|
  {
    if text == [] then [Item(l, FixedBits(END_OF_BLOCK), true)] + Dues(NextLane(l), NUM_STREAMS - 1)
    else [Item(l, FixedBits(text[0]), true)] + TextItems(text[1..], NextLane(l))
  }

  function Dues(l: nat, n: nat): seq<Item>
    requires l < NUM_STREAMS
    decreases n
  {
    if n == 0 then [] else [Item(l, [], true)] + Dues(NextLane(l), n - 1)
  }

  /** A page of one block: final, of type 01, and the text. */
  function FixedText(text: seq<byte>): seq<Item> {
    [Item(0, [true, true, false], true)] + TextItems(text, 0)
  }

  function Pieces(text: seq<byte>): (w: seq<Piece>)
    ensures |w| == |text| && forall i :: 0 <= i < |text| ==> w[i] == Lit(text[i])
  {
    seq(|text|, i requires 0 <= i < |text| => Lit(text[i]))
  }

  lemma TextTokens(text: seq<byte>)
    ensures AllKnown(Pieces(text)) && Tokens(Pieces(text)) == Literals(text)
  {
  }

  /** A text is its literals, executed. */
  lemma {:induction false} TextExecutes(text: seq<byte>)
    ensures WellFormed(Literals(text)) && OutLen(Literals(text)) == |text| && Execute(Literals(text)) == text
  {
    if text != [] {
      var n := |text| - 1;
      TextExecutes(text[..n]);
      assert Literals(text)[..n] == Literals(text[..n]);
      assert text == text[..n] + [text[n]];
    }
  }

  lemma {:induction false} DuesAre(c: Codes, w: seq<Piece>, n0: nat, l: nat, n: nat)
    requires BlockWriter.Writable(c, w) && l < NUM_STREAMS && Owed(w, n0, NoneOwing())
    ensures DrainItems(c, w, n0, NoneOwing(), l, n) == Dues(l, n)
    decreases n
  {
    hide BlockWriter.Writable;
    if n > 0 {
      assert NoneOwing()[l := Idle] == NoneOwing();
      DuesAre(c, w, n0, NextLane(l), n - 1);
    }
  }

  lemma {:induction false} TextAre(text: seq<byte>, i: nat, l: nat)
    requires BlockWriter.Writable(StaticCodes(), Pieces(text)) && l < NUM_STREAMS && i <= |text| && Owed(Pieces(text), 0, NoneOwing())
    ensures CodedItems(StaticCodes(), Pieces(text), 0, NoneOwing(), i, l) == TextItems(text[i..], l)
    decreases |text| - i
  {
    hide BlockWriter.Writable, Codeword, FixedBits, DrainItems, Dues;
    if i < |text| {
      FixedCodewords(text[i]);
      assert text[i..][1..] == text[i + 1..];
      assert OwedNext(Pieces(text), 0, NoneOwing(), i, l) == NoneOwing();
      TextAre(text, i + 1, NextLane(l));
    } else {
      FixedCodewords(END_OF_BLOCK);
      DuesAre(StaticCodes(), Pieces(text), 0, NextLane(l), NUM_STREAMS - 1);
    }
  }

  lemma TextWritable(text: seq<byte>, cap: nat)
    requires |text| <= cap
    ensures BlockWriter.Writable(StaticCodes(), Pieces(text)) && Owed(Pieces(text), 0, NoneOwing())
    ensures BlockOk(Fixed(Pieces(text)), [], cap)
  {
    hide Execute, OutLen, Codeword, FixedBits, WellFormed;
    TextTokens(text);
    TextExecutes(text);
    assert [] + Literals(text) == Literals(text);
    FixedCodewords(END_OF_BLOCK);
    forall i | 0 <= i < |text| ensures PieceWritable(StaticCodes(), Pieces(text)[i]) {
      FixedCodewords(text[i]);
    }
  }

  /** What one block makes of a page. */
  lemma OneBlockPage(b: Written, cap: nat)
    requires BlockOk(b, [], cap)
    ensures PageOk([b], [], cap) && PageKnown([b]) && PageItems([b], [], cap) == BlockItems(b, [], cap, true)
    ensures AllTokens([b]) == TokensOf(b) && Records([b]) == [Record(b)]
  {
    hide BlockOk, BlockItems, TokensOf, Record;
    KnownBlock(b, [], cap);
    var bs := [b];
    assert bs[1..] == [];
    PageUnfold(bs, [], cap);
    assert PageItems([], [] + TokensOf(b), cap) == [];
    NoBlocks([]);
  }

  /** The page that deals the final mark, the type 01, the fixed codewords of any
      bytes and of the end of the block, lane after lane, is accepted, and its
      output is those bytes. */
  lemma FixedTextIsRead(page: seq<byte>, text: seq<byte>, cap: nat)
    requires |text| <= cap && Primed(page).Ok? && Feed(page, Primed(page).value, FixedText(text)).Ok?
    ensures ReadPage(page, cap) == Ok(Page(Literals(text), [Block(Static, |text|)]))
    ensures WellFormed(Literals(text)) && Execute(Literals(text)) == text && PageBlocks(page, cap) == 1
  {
    hide Feed, Primed, ReadPage, PageBlocks, TextItems, CodedItems, Execute, OutLen, BlockOk, BlockWriter.Writable, PageOk, PageItems;
    var w := Pieces(text);
    TextWritable(text, cap);
    TextTokens(text);
    TextExecutes(text);
    TextAre(text, 0, 0);
    assert text[0..] == text;
    OneBlockPage(Fixed(w), cap);
    assert [true] + KindBits(Static) == [true, true, false];
    FedPageIsRead(page, [Fixed(w)], cap);
  }

  /** And every text has such a page. */
  lemma FixedTextHasPage(text: seq<byte>, more: seq<seq<bool>>) returns (page: seq<byte>)
    requires forall j :: 0 <= j < |more| ==> |more[j]| == BITS_PER_PACKET
    ensures Primed(page).Ok? && Feed(page, Primed(page).value, FixedText(text)).Ok?
  {
    hide Feed, Primed, TextItems, CodedItems, BlockOk, BlockWriter.Writable, PageOk, PageItems, WritePage, Schedulable, Execute;
    var w, cap := Pieces(text), |text|;
    TextWritable(text, cap);
    TextAre(text, 0, 0);
    assert text[0..] == text;
    OneBlockPage(Fixed(w), cap);
    assert [true] + KindBits(Static) == [true, true, false];
    PageSchedules(Repeat(BITS_PER_PACKET, NUM_STREAMS), [Fixed(w)], [], cap);
    WrittenFeeds(FixedText(text), more);
    page := WritePage(FixedText(text), more);
  }

  // ----- the empty text -----

  lemma {:induction false} DuesFeed(page: seq<byte>, st: Streams, l: nat, n: nat)
    requires Ready(st) && l < NUM_STREAMS
    ensures Feed(page, st, Dues(l, n)) == Ok(st)
    decreases n
  {
    if n > 0 {
      ConsumeNone(st, l);
      assert Dues(l, n)[1..] == Dues(NextLane(l), n - 1);
      DuesFeed(page, st, NextLane(l), n - 1);
    }
  }

  /** A page whose lane 0 begins with the bits 1, 1, 0 and seven zeros, and that has
      one word more than priming takes, is a final fixed block of nothing. */
  lemma EmptyFixedPage(page: seq<byte>, cap: nat)
    requires Primed(page).Ok? && WordCount(page) > NUM_STREAMS
    requires [true, true, false] + Repeat(false, 7) <= Word(page, 0)
    ensures ReadPage(page, cap) == Ok(Page([], [Block(Static, 0)])) && PageBlocks(page, cap) == 1
  {
    hide Word, ReadPage, PageBlocks, MsbBits;
    var st := Primed(page).value;
    var end := FixedBits(END_OF_BLOCK);
    SevenZeros();
    PrimedConserves(page);
    var head, tail := Item(0, [true, true, false], true), [Item(0, end, true)] + Dues(1, NUM_STREAMS - 1);
    var w := Word(page, 0);
    var st1 := Streams(st.lanes[0 := w[3..] + Word(page, NUM_STREAMS)], NUM_STREAMS + 1);
    assert st.lanes[0] == w && [true, true, false] <= w by {
      assert w[..3] == ([true, true, false] + Repeat(false, 7))[..3];
    }
    assert Consume(st, 0, 3).lanes[0 := w[3..] + Word(page, NUM_STREAMS)] == st1.lanes;
    assert FeedOne(page, st, head) == Ok(st1);
    assert end <= w[3..] by { assert w[3..10] == ([true, true, false] + Repeat(false, 7))[3..10]; }
    var st2 := Consume(st1, 0, 7);
    assert FeedOne(page, st1, Item(0, end, true)) == Ok(st2);
    DuesFeed(page, st2, 1, NUM_STREAMS - 1);
    assert tail[1..] == Dues(1, NUM_STREAMS - 1) && ([head] + tail)[1..] == tail;
    assert FixedText([]) == [head] + tail;
    FixedTextIsRead(page, [], cap);
    assert Literals([]) == [];
  }

  lemma SevenZeros()
    ensures FixedBits(END_OF_BLOCK) == Repeat(false, 7)
  {
    assert MsbBits(0, 7) == MsbBits(0, 6) + [false];
    assert MsbBits(0, 6) == MsbBits(0, 5) + [false];
    assert MsbBits(0, 5) == MsbBits(0, 4) + [false];
    assert MsbBits(0, 4) == MsbBits(0, 3) + [false];
  }

  /** For one, 132 bytes of which the first is 3 and the others zero. */
  lemma SmallestFixedPage(cap: nat)
    ensures ReadPage([3] + Repeat(0, 131), cap) == Ok(Page([], [Block(Static, 0)]))
  {
    hide ReadPage, BitsOf, Pow2, WordAt;
    var page: seq<byte> := [3] + Repeat(0, 131);
    WordAtIsLittleEndian(page, 0);
    FrontOfThree();
    EmptyFixedPage(page, cap);
  }

  lemma FrontOfThree()
    ensures [true, true, false] + Repeat(false, 7) <= BitsOf(3, 32)
  {
    hide BitsOf;
    BitsTake(3, 10, 32);
    BitsStep(3, 10);
    BitsStep(1, 9);
    ZeroBits(8);
  }

  lemma BitsStep(n: nat, k: nat)
    requires k >= 1
    ensures BitsOf(n, k) == [n % 2 == 1] + BitsOf(n / 2, k - 1)
  {
  }

  lemma {:induction false} ZeroBits(k: nat)
    ensures BitsOf(0, k) == Repeat(false, k)
  {
    if k > 0 { ZeroBits(k - 1); }
  }

  // ----- a text in one block of its own codes -----

  /** The same text under any codes. */
  ghost function TextUnder(c: Codes, text: seq<byte>, l: nat): seq<Item>
    requires BlockWriter.Writable(c, Pieces(text)) && l < NUM_STREAMS
    decreases |text|
  {
    if text == [] then [Item(l, EndBits(c), true)] + Dues(NextLane(l), NUM_STREAMS - 1)
    else
      FirstWritable(c, text);
      [Item(l, Codeword(c.litlen, text[0]), true)] + TextUnder(c, text[1..], NextLane(l))
  }

  lemma FirstWritable(c: Codes, text: seq<byte>)
    requires BlockWriter.Writable(c, Pieces(text)) && text != []
    ensures (text[0] as nat) < |c.litlen| && c.litlen[text[0]] >= 1 && BlockWriter.Writable(c, Pieces(text[1..]))
  {
    assert PieceWritable(c, Pieces(text)[0]);
    forall i | 0 <= i < |text[1..]| ensures PieceWritable(c, Pieces(text[1..])[i]) {
      assert Pieces(text)[i + 1] == Pieces(text[1..])[i];
    }
  }

  /** A page of one block: final, of type 10, the header, and the text. */
  ghost function OwnText(h: DynamicHeader, text: seq<byte>): seq<Item>
    requires HeaderWritable(h) && BlockWriter.Writable(CodesOf(h), Pieces(text))
  {
    [Item(0, [true, false, true], true)] + (HeaderItems(h) + TextUnder(CodesOf(h), text, 0))
  }

  lemma {:induction false} UnderAre(c: Codes, text: seq<byte>, i: nat, l: nat)
    requires BlockWriter.Writable(c, Pieces(text)) && l < NUM_STREAMS && i <= |text| && Owed(Pieces(text), 0, NoneOwing())
    ensures BlockWriter.Writable(c, Pieces(text[i..]))
    ensures CodedItems(c, Pieces(text), 0, NoneOwing(), i, l) == TextUnder(c, text[i..], l)
    decreases |text| - i
  {
    hide Codeword, DrainItems, Dues;
    LaterWritable(c, text, i);
    if i < |text| {
      assert text[i..][1..] == text[i + 1..];
      assert OwedNext(Pieces(text), 0, NoneOwing(), i, l) == NoneOwing();
      UnderAre(c, text, i + 1, NextLane(l));
    } else {
      DuesAre(c, Pieces(text), 0, NextLane(l), NUM_STREAMS - 1);
    }
  }

  lemma LaterWritable(c: Codes, text: seq<byte>, i: nat)
    requires BlockWriter.Writable(c, Pieces(text)) && i <= |text|
    ensures BlockWriter.Writable(c, Pieces(text[i..]))
  {
    forall k | 0 <= k < |text[i..]| ensures PieceWritable(c, Pieces(text[i..])[k]) {
      assert Pieces(text)[i + k] == Pieces(text[i..])[k];
    }
  }

  lemma OwnWritable(h: DynamicHeader, text: seq<byte>, cap: nat)
    requires |text| <= cap && HeaderWritable(h) && BlockWriter.Writable(CodesOf(h), Pieces(text))
    ensures Owed(Pieces(text), 0, NoneOwing()) && BlockOk(Own(h, Pieces(text)), [], cap)
    ensures BlockItems(Own(h, Pieces(text)), [], cap, true) == OwnText(h, text)
  {
    hide Execute, OutLen, HeaderWritable, BlockWriter.Writable, TextUnder, CodedItems, HeaderItems;
    TextTokens(text);
    TextExecutes(text);
    assert [] + Literals(text) == Literals(text);
    UnderAre(CodesOf(h), text, 0, 0);
    assert text[0..] == text;
    assert [true] + KindBits(DynamicHuffman) == [true, false, true];
  }

  /** The page that deals the final mark, the type 10, a header and any bytes its
      codes can write is accepted, and its output is those bytes. */
  lemma OwnTextIsRead(page: seq<byte>, h: DynamicHeader, text: seq<byte>, cap: nat)
    requires |text| <= cap && HeaderWritable(h) && BlockWriter.Writable(CodesOf(h), Pieces(text))
    requires Primed(page).Ok? && Feed(page, Primed(page).value, OwnText(h, text)).Ok?
    ensures ReadPage(page, cap) == Ok(Page(Literals(text), [Block(DynamicHuffman, |text|)]))
    ensures WellFormed(Literals(text)) && Execute(Literals(text)) == text && PageBlocks(page, cap) == 1
  {
    hide Feed, Primed, ReadPage, PageBlocks, OwnText, BlockItems, Execute, OutLen, BlockOk, BlockWriter.Writable, PageOk, PageItems, HeaderWritable;
    TextTokens(text);
    TextExecutes(text);
    OwnWritable(h, text, cap);
    OneBlockPage(Own(h, Pieces(text)), cap);
    FedPageIsRead(page, [Own(h, Pieces(text))], cap);
  }

  lemma OwnTextHasPage(h: DynamicHeader, text: seq<byte>, more: seq<seq<bool>>) returns (page: seq<byte>)
    requires HeaderWritable(h) && BlockWriter.Writable(CodesOf(h), Pieces(text))
    requires forall j :: 0 <= j < |more| ==> |more[j]| == BITS_PER_PACKET
    ensures Primed(page).Ok? && Feed(page, Primed(page).value, OwnText(h, text)).Ok?
  {
    hide Feed, Primed, OwnText, BlockItems, BlockOk, BlockWriter.Writable, PageOk, PageItems, WritePage, Schedulable, HeaderWritable;
    OwnWritable(h, text, |text|);
    OneBlockPage(Own(h, Pieces(text)), |text|);
    PageSchedules(Repeat(BITS_PER_PACKET, NUM_STREAMS), [Own(h, Pieces(text))], [], |text|);
    WrittenFeeds(OwnText(h, text), more);
    page := WritePage(OwnText(h, text), more);
  }

  // ----- a header for every text -----

  /** Every length written for itself. */
  function EachItself(lens: seq<nat>): (runs: seq<Run>)
    ensures |runs| == |lens| && forall i :: 0 <= i < |lens| ==> runs[i] == Explicit(lens[i])
  {
    seq(|lens|, i requires 0 <= i < |lens| => Explicit(lens[i]))
  }

  lemma NothingWritten(acc: seq<nat>)
    ensures Runnable(acc, []) && Unrun(acc, []) == acc && RunsLength([]) == 0
  {
  }

  lemma EachStep(acc: seq<nat>, lens: seq<nat>)
    requires lens != []
    ensures EachItself(lens) == [Explicit(lens[0])] + EachItself(lens[1..])
    ensures acc + [lens[0]] + lens[1..] == acc + lens
  {
    assert [lens[0]] + lens[1..] == lens;
  }

  lemma OneLength(acc: seq<nat>, len: nat)
    ensures Extended(acc, Explicit(len)) == acc + [len]
  {
  }

  lemma {:induction false} EachIsWritten(acc: seq<nat>, lens: seq<nat>)
    ensures Runnable(acc, EachItself(lens)) && Unrun(acc, EachItself(lens)) == acc + lens && RunsLength(EachItself(lens)) == |lens|
    decreases |lens|
  {
    hide Runnable, Unrun, RunsLength, EachItself, Extended;
    if lens == [] {
      NothingWritten(acc);
      assert acc + lens == acc && EachItself(lens) == [];
    } else {
      EachStep(acc, lens);
      OneLength(acc, lens[0]);
      EachIsWritten(acc + [lens[0]], lens[1..]);
      RunsUnfold(acc, Explicit(lens[0]), EachItself(lens[1..]));
    }
  }

  /** The precode of four codewords of two bits: the lengths 5, 7, 8 and 9. */
  const PLAIN_PRECODE: seq<nat> := Repeat(0, 5) + [2, 0, 2, 2, 2] + Repeat(0, 9)

  /** The fixed codes, written out in a block's own header. */
  const PLAIN_HEADER: DynamicHeader :=
    DynamicHeader(NUM_LITLEN_SYMS, NUM_DIST_SYMS, NUM_PRECODE_SYMS, PLAIN_PRECODE, EachItself(STATIC_LITLEN + STATIC_DIST))

  lemma PlainPrecode()
    ensures |PLAIN_PRECODE| == NUM_PRECODE_SYMS && Complete(PLAIN_PRECODE, MAX_PRECODE_LEN)
    ensures PLAIN_PRECODE[5] == PLAIN_PRECODE[7] == PLAIN_PRECODE[8] == PLAIN_PRECODE[9] == 2
  {
    hide Kraft;
    var a, b, c, d: seq<nat> := Repeat<nat>(0, 5), [2, 0, 2, 2, 2], Repeat<nat>(0, 9), Repeat<nat>(2, 3);
    assert PLAIN_PRECODE == a + b + c;
    KraftOfJoin(a + b, c, 7);
    KraftOfJoin(a, b, 7);
    KraftOfRun(0, 5, 7);
    KraftOfRun(0, 9, 7);
    assert b == Repeat<nat>(2, 1) + Repeat<nat>(0, 1) + d;
    KraftOfJoin(Repeat<nat>(2, 1) + Repeat<nat>(0, 1), d, 7);
    KraftOfJoin(Repeat<nat>(2, 1), Repeat<nat>(0, 1), 7);
    KraftOfRun(2, 1, 7);
    KraftOfRun(0, 1, 7);
    KraftOfRun(2, 3, 7);
    assert Pow2(7) == 128 && Pow2(5) == 32;
  }

  /** It is a header, of the codes it means to be. */
  lemma PlainHeader()
    ensures HeaderWritable(PLAIN_HEADER) && CodesOf(PLAIN_HEADER) == StaticCodes()
  {
    hide Kraft, Verdict, Complete, Runnable, Unrun;
    StaticCodesOk();
    PlainPrecode();
    var lens := STATIC_LITLEN + STATIC_DIST;
    EachIsWritten([], lens);
    assert [] + lens == lens;
    assert lens[..NUM_LITLEN_SYMS] == STATIC_LITLEN && lens[NUM_LITLEN_SYMS..] == STATIC_DIST;
    PageDecode.StaticVerdicts();
    CompleteVerdict(PLAIN_PRECODE, NUM_PRECODE_SYMS, MAX_PRECODE_LEN);
    AllPlaced();
    forall i | 0 <= i < |lens| ensures RunWritable(PLAIN_PRECODE, Explicit(lens[i])) {
      if i < NUM_LITLEN_SYMS { FixedCodewords(i); }
    }
  }

  lemma AllPlaced()
    ensures |PLAIN_PRECODE| == NUM_PRECODE_SYMS && CodeWriter.Placed(PLAIN_PRECODE, NUM_PRECODE_SYMS) == PLAIN_PRECODE
  {
  }

  lemma CompleteVerdict(lens: seq<nat>, cap: nat, m: nat)
    requires Complete(lens, m) && |lens| <= cap
    ensures Verdict(lens, cap, m) == Ok(CompleteTable)
  {
  }

  /** So every text has a page of one block with its own header, too. */
  lemma EveryTextHasOwnPage(text: seq<byte>, cap: nat) returns (page: seq<byte>)
    requires |text| <= cap
    ensures ReadPage(page, cap) == Ok(Page(Literals(text), [Block(DynamicHuffman, |text|)]))
    ensures WellFormed(Literals(text)) && Execute(Literals(text)) == text
  {
    hide ReadPage, PageBlocks, Feed, Primed, HeaderWritable, BlockWriter.Writable, Execute, WellFormed, BlockOk, OwnText;
    PlainHeader();
    TextWritable(text, cap);
    page := OwnTextHasPage(PLAIN_HEADER, text, []);
    OwnTextIsRead(page, PLAIN_HEADER, text, cap);
  }
}
