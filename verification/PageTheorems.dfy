/** What follows from the page's reading by itself, whoever reads it. */
module PageTheorems {
  import opened Bits
  import opened Schedule
  import opened CanonicalCode
  import opened HuffTable
  import opened Lz77
  import opened PageSpec

  // ----- the tokens of an accepted page can be executed -----

  /** No match reaches before the start of the output. */
  ghost predicate Reaches(tokens: seq<Token>) {
    forall j :: 0 <= j < |tokens| && tokens[j].Match? ==> 1 <= tokens[j].dist <= Start(tokens, j)
  }

  lemma AppendReaches(tokens: seq<Token>, t: Token)
    requires Reaches(tokens) && !t.Match?
    ensures Reaches(tokens + [t])
  {
    AppendStarts(tokens, t);
  }

  lemma SettleReaches(tokens: seq<Token>, j: nat, dist: nat)
    requires Reaches(tokens) && j < |tokens| && tokens[j].Reserved? && 1 <= dist <= Start(tokens, j)
    ensures Reaches(tokens[j := Match(tokens[j].len, dist)])
  {
    SameLengths(tokens, tokens[j := Match(tokens[j].len, dist)]);
  }

  lemma SymbolStepReaches(page: seq<byte>, c: Codes, cap: nat, p: Parse, l: nat)
    requires CodesOk(c) && Live(page, cap, p) && l < NUM_STREAMS && SymbolStep(page, c, cap, p, l).Ok? && Reaches(p.tokens)
    ensures Reaches(SymbolStep(page, c, cap, p, l).value.p.tokens)
  {
    hide Reaches, ReadLitLen, ReadDist, OutLen;
    if p.pend[l].Owes? {
      RetireReaches(c, p, l);
    } else {
      match ReadLitLen(c.litlen, p.st.lanes[l]).value.what
      case Byte(b) => AppendReaches(p.tokens, Literal(b));
      case Length(len) => AppendReaches(p.tokens, Reserved(len, l));
      case EndOfBlock =>
    }
  }

  lemma RetireReaches(c: Codes, p: Parse, l: nat)
    requires CodesOk(c) && Ready(p.st) && Linked(p.tokens, p.pend) && l < NUM_STREAMS && p.pend[l].Owes?
    requires Retire(c, p, l).Ok? && Reaches(p.tokens)
    ensures Reaches(Retire(c, p, l).value.tokens)
  {
    hide Reaches, ReadDist, OutLen;
    SettleReaches(p.tokens, p.pend[l].token, ReadDist(c.dist, p.st.lanes[l]).value.what);
  }

  lemma {:induction false} DrainReaches(page: seq<byte>, c: Codes, cap: nat, p: Parse, l: nat, n: nat)
    requires CodesOk(c) && Live(page, cap, p) && l < NUM_STREAMS && n < NUM_STREAMS && OnlyNextOwe(p.pend, l, n)
    requires Drain(page, c, cap, p, l, n).Ok? && Reaches(p.tokens)
    ensures Reaches(Drain(page, c, cap, p, l, n).value.tokens)
    decreases n
  {
    hide Reaches, DrainStep, CodesOk;
    if n > 0 {
      DrainStepKeeps(page, c, cap, p, l);
      DrainStepReaches(page, c, cap, p, l);
      DrainReaches(page, c, cap, DrainStep(page, c, cap, p, l).value, NextLane(l), n - 1);
    }
  }

  lemma DrainStepReaches(page: seq<byte>, c: Codes, cap: nat, p: Parse, l: nat)
    requires CodesOk(c) && Live(page, cap, p) && l < NUM_STREAMS && DrainStep(page, c, cap, p, l).Ok? && Reaches(p.tokens)
    ensures Reaches(DrainStep(page, c, cap, p, l).value.tokens)
  {
    hide Reaches, Retire, CodesOk;
    if p.pend[l].Owes? { RetireReaches(c, p, l); }
  }

  lemma {:induction false} SymbolsReach(page: seq<byte>, c: Codes, cap: nat, p: Parse, l: nat)
    requires CodesOk(c) && Live(page, cap, p) && l < NUM_STREAMS && Symbols(page, c, cap, p, l).Ok? && Reaches(p.tokens)
    ensures Reaches(Symbols(page, c, cap, p, l).value.tokens)
    decreases Budget(cap, p)
  {
    hide Reaches, SymbolStep, Drain, CodesOk;
    SymbolStepKeeps(page, c, cap, p, l);
    SymbolStepReaches(page, c, cap, p, l);
    var s := SymbolStep(page, c, cap, p, l).value;
    if s.More? {
      SymbolsReach(page, c, cap, s.p, NextLane(l));
    } else {
      OthersOwe(p.pend, l);
      DrainReaches(page, c, cap, s.p, NextLane(l), NUM_STREAMS - 1);
    }
  }

  lemma {:induction false} StoredReaches(page: seq<byte>, st: Streams, tokens: seq<Token>, l: nat, n: nat)
    requires AtBlock(page, st) && l < NUM_STREAMS && Settled(tokens) && StoredBytes(page, st, tokens, l, n).Ok? && Reaches(tokens)
    ensures Reaches(StoredBytes(page, st, tokens, l, n).value.tokens)
    decreases n
  {
    hide Reaches, Low, OutLen, Total, Word, Remaining;
    if n > 0 {
      ByteField(st.lanes[l][..8]);
      var b: byte := Field(st, l, 8);
      ConsumeSpends(page, st, l, 8);
      RefillKeeps(page, Consume(st, l, 8), l);
      AppendReaches(tokens, Literal(b));
      StoredReaches(page, Refill(page, Consume(st, l, 8), l).value, tokens + [Literal(b)], NextLane(l), n - 1);
    }
  }

  lemma BodyReaches(page: seq<byte>, cap: nat, st: Streams, tokens: seq<Token>, kind: BlockType)
    requires Ready(st) && st.cursor <= WordCount(page) && Settled(tokens) && OutLen(tokens) <= cap
    requires BlockBody(page, cap, st, tokens, kind).Ok? && Reaches(tokens)
    ensures Reaches(BlockBody(page, cap, st, tokens, kind).value.tokens)
  {
    hide Reaches, Symbols, StoredBytes, Low, OutLen;
    match kind
    case Stored =>
      ConsumeSpends(page, st, 0, 16);
      StoredReaches(page, Consume(st, 0, 16), tokens, 0, Field(st, 0, 16));
    case Static => CodedReaches(page, cap, st, tokens, StaticCodes());
    case DynamicHuffman =>
      var d := ReadDynamic(page, st).value;
      CodedReaches(page, cap, d.st, tokens, d.codes);
  }

  lemma CodedReaches(page: seq<byte>, cap: nat, st: Streams, tokens: seq<Token>, c: Codes)
    requires CodesOk(c) && Ready(st) && st.cursor <= WordCount(page) && Settled(tokens) && OutLen(tokens) <= cap
    requires CodedBlock(page, cap, st, tokens, c).Ok? && Reaches(tokens)
    ensures Reaches(CodedBlock(page, cap, st, tokens, c).value.tokens)
  {
    hide Reaches, Symbols;
    SymbolsReach(page, c, cap, Parse(st, tokens, Repeat(Idle, NUM_STREAMS)), 0);
  }

  lemma {:induction false} BlocksReach(page: seq<byte>, cap: nat, body: Body, blocks: seq<Block>)
    requires AtBlock(page, body.st) && Settled(body.tokens) && BytesOf(blocks) == OutLen(body.tokens) <= cap
    requires Blocks(page, cap, body, blocks).Ok? && Reaches(body.tokens)
    ensures Reaches(Blocks(page, cap, body, blocks).value.tokens)
    decreases Remaining(page, body.st)
  {
    hide Reaches, ReadHeader, BlockBody;
    var h := ReadHeader(page, body.st).value;
    BodyReaches(page, cap, h.st, body.tokens, h.kind);
    var next := OneBlock(page, cap, body, blocks).value;
    if !next.final { BlocksReach(page, cap, next.body, next.blocks); }
  }

  /** Every accepted page's tokens are executable in order: each match's source is
      already final, and its output is exactly as long as they declare. */
  lemma PageIsWellFormed(page: seq<byte>, cap: nat)
    requires ReadPage(page, cap).Ok?
    ensures var said := ReadPage(page, cap).value;
            WellFormed(said.tokens) && |Execute(said.tokens)| == BytesOf(said.blocks) <= cap
  {
    hide Blocks;
    PrimedConserves(page);
    BlocksReach(page, cap, Body(Primed(page).value, []), []);
  }

  // ----- symbols, encoded and read back -----

  function Encoded(lens: seq<nat>, syms: seq<nat>): seq<bool>
    requires forall i :: 0 <= i < |syms| ==> syms[i] < |lens| && lens[syms[i]] >= 1
  {
    if syms == [] then [] else Codeword(lens, syms[0]) + Encoded(lens, syms[1..])
  }

  /** `n` symbols read one behind another, and the bits left over. */
  ghost function ReadSymbols(lens: seq<nat>, m: nat, bits: seq<bool>, n: nat): Result<(seq<nat>, seq<bool>)>
    requires IsCode(lens, m) && |bits| >= m
    decreases n
  {
    if n == 0 then Ok(([], bits))
    else
      var s := Symbol(lens, m, bits);
      if s.Refused? then Refused(s.why)
      else if |bits| - s.value.width < m then Refused(RemovePastLane)
      else
        var rest := ReadSymbols(lens, m, bits[s.value.width..], n - 1);
        if rest.Refused? then rest else Ok(([s.value.what] + rest.value.0, rest.value.1))
  }

  lemma SymbolOfCodeword(lens: seq<nat>, m: nat, sym: nat, rest: seq<bool>)
    requires IsCode(lens, m) && sym < |lens| && lens[sym] >= 1 && |rest| >= m
    ensures Symbol(lens, m, Codeword(lens, sym) + rest) == Ok(Reading(sym, lens[sym]))
  {
    hide Codeword, Code;
    var bits := Codeword(lens, sym) + rest;
    assert Matches(lens, sym, bits);
    if Complete(lens, m) {
      CompleteIsUniquelyDecodable(lens, bits, m);
    }
  }

  /** Reading inverts writing, for every symbol sequence and whatever follows it. */
  lemma {:induction false} SymbolsRoundTrip(lens: seq<nat>, m: nat, syms: seq<nat>, rest: seq<bool>)
    requires IsCode(lens, m) && |rest| >= m
    requires forall i :: 0 <= i < |syms| ==> syms[i] < |lens| && lens[syms[i]] >= 1
    ensures ReadSymbols(lens, m, Encoded(lens, syms) + rest, |syms|) == Ok((syms, rest))
  {
    hide Symbol, Codeword, IsCode;
    if syms == [] {
      assert Encoded(lens, syms) + rest == rest;
    } else {
      var w, more := Codeword(lens, syms[0]), Encoded(lens, syms[1..]) + rest;
      var bits := Encoded(lens, syms) + rest;
      assert bits == w + more;
      SymbolOfCodeword(lens, m, syms[0], more);
      CodewordLength(lens, syms[0]);
      assert bits[|w|..] == more;
      SymbolsRoundTrip(lens, m, syms[1..], rest);
      assert [syms[0]] + syms[1..] == syms;
    }
  }

  lemma CodewordLength(lens: seq<nat>, sym: nat)
    requires sym < |lens| && lens[sym] >= 1
    ensures |Codeword(lens, sym)| == lens[sym]
  {
  }

  /** A root slot is zero exactly when the codeword under its bits is longer than
      the root; otherwise it names that codeword's symbol and length. */
  lemma RootSlotIsZero(lens: seq<nat>, m: nat, rootBits: nat, i: nat, entry: nat, bits: seq<bool>, sym: nat)
    requires Complete(lens, m) && 1 <= rootBits <= m <= |bits| && RootSlot(lens, rootBits, i, entry)
    requires bits[..rootBits] == BitsOf(i, rootBits) && Matches(lens, sym, bits)
    ensures entry == 0 <==> lens[sym] > rootBits
    ensures entry != 0 ==> entry / 16 == sym && entry % 16 == lens[sym]
  {
    hide Codeword, Code;
    var w := Codeword(lens, sym);
    CodewordLength(lens, sym);
    if lens[sym] <= rootBits {
      assert w <= BitsOf(i, rootBits) by { assert bits[..rootBits][..|w|] == bits[..|w|] == w; }
      assert Matches(lens, sym, BitsOf(i, rootBits));
    }
    if entry != 0 {
      var s := entry / 16;
      assert Codeword(lens, s) <= bits by { assert bits[..rootBits][..|Codeword(lens, s)|] == bits[..|Codeword(lens, s)|]; }
      MatchUnique(lens, s, sym, bits, m);
      CodewordLength(lens, s);
    }
  }

  // ----- lengths and distances -----

  lemma SmallPowers()
    ensures Pow2(0) == 1 && Pow2(1) == 2 && Pow2(2) == 4 && Pow2(3) == 8 && Pow2(4) == 16 && Pow2(5) == 32
    ensures Pow2(6) == 64 && Pow2(7) == 128 && Pow2(8) == 256 && Pow2(9) == 512 && Pow2(10) == 1024
    ensures Pow2(11) == 2048 && Pow2(12) == 4096 && Pow2(13) == 8192 && Pow2(14) == 16384
  {
    assert Pow2(7) == 128;
    assert Pow2(10) == 8 * Pow2(7);
    assert Pow2(14) == 16 * Pow2(10);
  }

  /** The bases abut: each distance symbol begins where the one before it ends. */
  lemma DistancesAbut(sym: nat)
    requires sym < NUM_DIST_SYMS
    ensures (if sym + 1 < NUM_DIST_SYMS then DistBase(sym + 1) else 65537) == DistBase(sym) + Pow2(DistExtra(sym))
  {
    SmallPowers();
  }

  lemma {:induction false} DistancesGrow(a: nat, b: nat)
    requires a < b < NUM_DIST_SYMS
    ensures DistBase(a) + Pow2(DistExtra(a)) <= DistBase(b)
    decreases b
  {
    hide DistBase, DistExtra;
    DistancesAbut(b - 1);
    DistancesAbut(a);
    if a < b - 1 { DistancesGrow(a, b - 1); }
  }

  predicate SpellsDistance(sym: nat, d: nat) {
    sym < NUM_DIST_SYMS && DistBase(sym) <= d < DistBase(sym) + Pow2(DistExtra(sym))
  }

  lemma DistancesStart()
    ensures DistBase(0) == 1
  {
  }

  lemma {:induction false} DistanceBelow(d: nat, n: nat) returns (sym: nat)
    requires 1 <= n <= NUM_DIST_SYMS && 1 <= d < if n < NUM_DIST_SYMS then DistBase(n) else 65537
    ensures SpellsDistance(sym, d)
    decreases n
  {
    hide Pow2, DistBase, DistExtra;
    DistancesAbut(n - 1);
    DistancesStart();
    if d >= DistBase(n - 1) {
      sym := n - 1;
    } else {
      sym := DistanceBelow(d, n - 1);
    }
  }

  /** Every distance up to 64 KiB has exactly one spelling. */
  lemma EveryDistanceOnce(d: nat)
    requires 1 <= d <= 65536
    ensures exists sym :: SpellsDistance(sym, d) && forall t :: SpellsDistance(t, d) ==> t == sym
  {
    hide DistBase, DistExtra, Pow2;
    var sym := DistanceBelow(d, NUM_DIST_SYMS);
    forall t | SpellsDistance(t, d) ensures t == sym {
      if t < sym { DistancesGrow(t, sym); }
      if sym < t { DistancesGrow(sym, t); }
    }
  }

  lemma LengthsAbut(index: nat)
    requires index < 28
    ensures (if index < 27 then LengthBase(index + 1) else 259) == LengthBase(index) + Pow2(LengthExtra(index))
  {
    SmallPowers();
  }

  predicate SpellsLength(index: nat, n: nat) {
    index < 28 && LengthBase(index) <= n < LengthBase(index) + Pow2(LengthExtra(index))
  }

  lemma {:induction false} LengthsGrow(a: nat, b: nat)
    requires a < b < 28
    ensures LengthBase(a) + Pow2(LengthExtra(a)) <= LengthBase(b)
    decreases b
  {
    hide LengthBase, LengthExtra;
    LengthsAbut(b - 1);
    LengthsAbut(a);
    if a < b - 1 { LengthsGrow(a, b - 1); }
  }

  lemma {:induction false} LengthBelow(n: nat, k: nat) returns (index: nat)
    requires 1 <= k <= 28 && MIN_MATCH_LEN <= n < if k < 28 then LengthBase(k) else 259
    ensures SpellsLength(index, n)
    decreases k
  {
    LengthsAbut(k - 1);
    hide Pow2;
    if n >= LengthBase(k - 1) {
      index := k - 1;
    } else {
      index := LengthBelow(n, k - 1);
    }
  }

  /** The tables in closed form: behind the first four lengths and the first two
      distances, each power of two is cut into four lengths and two distances. */
  lemma LengthsInClosedForm(index: nat)
    requires index < 28
    ensures LengthExtra(index) == (if index < 4 then 0 else (index - 4) / 4)
    ensures LengthBase(index) == if index < 4 then 3 + index else 3 + (4 + index % 4) * Pow2((index - 4) / 4)
  {
    SmallPowers();
  }

  lemma DistancesInClosedForm(sym: nat)
    requires sym < NUM_DIST_SYMS
    ensures DistExtra(sym) == (if sym < 2 then 0 else (sym - 2) / 2)
    ensures DistBase(sym) == if sym < 2 then 1 + sym else 1 + (2 + sym % 2) * Pow2((sym - 2) / 2)
  {
    SmallPowers();
  }

  /** The three wide symbols each reach every length up to 65538. */
  lemma WideLengths(n: nat, index: nat) returns (extra: nat)
    requires MIN_MATCH_LEN <= n <= 65538 && 28 <= index < 31
    ensures extra < Pow2(LengthExtra(index)) && n == LengthBase(index) + extra
  {
    BytePowers();
    extra := n - MIN_MATCH_LEN;
  }

  /** Every length up to 258 has exactly one spelling below the wide symbols. */
  lemma EveryLengthOnce(n: nat)
    requires MIN_MATCH_LEN <= n <= 258
    ensures exists index :: SpellsLength(index, n) && forall t :: SpellsLength(t, n) ==> t == index
  {
    hide Pow2;
    var index := LengthBelow(n, 28);
    forall t | SpellsLength(t, n) ensures t == index {
      if t < index { LengthsGrow(t, index); }
      if index < t { LengthsGrow(index, t); }
    }
  }

  // ----- the code lengths -----

  /** What a run writes: its own length, the length before it, or zero, as many
      times as it says. */
  lemma RunWrites(acc: seq<nat>, run: Run, i: nat)
    requires (run.RepeatPrevious? ==> acc != []) && i < run.Length()
    ensures |Extend(acc, run)| == |acc| + run.Length() && acc <= Extend(acc, run)
    ensures Extend(acc, run)[|acc| + i] == if run.Explicit? then run.len else if run.Zeros? then 0 else Extend(acc, run)[|acc| + i - 1]
  {
  }

  /** The bound on a stored block is what the page still holds, in bytes and
      rounded up. */
  lemma BytesLeftRoundsUp(page: seq<byte>, st: Streams)
    requires st.cursor <= WordCount(page)
    ensures 8 * BytesLeft(page, st) - 8 < Remaining(page, st) <= 8 * BytesLeft(page, st)
  {
  }

  /** A repeat has something before it to repeat. */
  predicate Runnable(acc: seq<nat>, runs: seq<Run>)
    decreases |runs|
  {
    runs == [] || (!(runs[0].RepeatPrevious? && acc == []) && Runnable(Extended(acc, runs[0]), runs[1..]))
  }

  function Extended(acc: seq<nat>, run: Run): seq<nat> {
    if run.RepeatPrevious? && acc == [] then acc else Extend(acc, run)
  }

  /** The runs written out behind what is already there (RFC 1951, 3.2.7). */
  function Unrun(acc: seq<nat>, runs: seq<Run>): seq<nat>
    decreases |runs|
  {
    if runs == [] then acc else Unrun(Extended(acc, runs[0]), runs[1..])
  }

  function RunsLength(runs: seq<Run>): nat {
    if runs == [] then 0 else runs[0].Length() + RunsLength(runs[1..])
  }

  datatype RunsRead = RunsRead(runs: seq<Run>, st: Streams, lane: nat)

  /** The first `n` runs the lanes hold, lane after lane from lane `l` on, each read
      followed by the word its lane is due. No vector is in sight: what is read
      does not depend on what has been written. */
  ghost function ReadRuns(page: seq<byte>, precode: seq<nat>, st: Streams, l: nat, n: nat): (r: Result<RunsRead>)
    requires PrecodeOk(precode) && Ready(st) && st.cursor <= WordCount(page) && l < NUM_STREAMS
    ensures r.Ok? ==> |r.value.runs| == n && Ready(r.value.st) && r.value.st.cursor <= WordCount(page)
    ensures r.Ok? ==> r.value.lane < NUM_STREAMS && Lengthy(r.value.runs)
    decreases n
  {
    if n == 0 then Ok(RunsRead([], st, l))
    else
      var s := ReadRun(precode, st.lanes[l]);
      if s.Refused? then Refused(s.why)
      else
        ConsumeReads(st, l, s.value.width);
        var after := Refill(page, Consume(st, l, s.value.width), l);
        if after.Refused? then Refused(after.why)
        else
          ReadThenRefill(page, st, Consume(st, l, s.value.width), l);
          var rest := ReadRuns(page, precode, after.value, NextLane(l), n - 1);
          if rest.Refused? then Refused(rest.why) else Ok(rest.value.(runs := [s.value.what] + rest.value.runs))
  }

  /** Every run writes something, and nothing a length may not be. */
  predicate Lengthy(runs: seq<Run>) {
    forall i :: 0 <= i < |runs| ==> runs[i].Length() >= 1 && (runs[i].Explicit? ==> runs[i].len <= MAX_CODE_LEN)
  }

  /** The first `n` runs can be read, each has something to repeat if it repeats,
      and behind `acc` they come to `total` entries, neither more nor fewer. */
  ghost predicate Fills(page: seq<byte>, precode: seq<nat>, st: Streams, acc: seq<nat>, total: nat, l: nat, n: nat)
    requires PrecodeOk(precode) && Ready(st) && st.cursor <= WordCount(page) && l < NUM_STREAMS
  {
    var read := ReadRuns(page, precode, st, l, n);
    read.Ok? && Runnable(acc, read.value.runs) && |acc| + RunsLength(read.value.runs) == total
  }

  /** One read: the runs behind it are those of the streams it leaves. */
  lemma ReadRunsUnfold(page: seq<byte>, precode: seq<nat>, st: Streams, l: nat, n: nat)
    requires PrecodeOk(precode) && Ready(st) && st.cursor <= WordCount(page) && l < NUM_STREAMS && n >= 1
    ensures var s, r := ReadRun(precode, st.lanes[l]), ReadRuns(page, precode, st, l, n);
            && (s.Refused? ==> r == Refused(s.why))
            && (s.Ok? ==>
                  && 1 <= s.value.width <= |st.lanes[l]|
                  && var after := Refill(page, Consume(st, l, s.value.width), l);
                     && (after.Refused? ==> r == Refused(after.why))
                     && (after.Ok? ==>
                           && Ready(after.value) && after.value.cursor <= WordCount(page)
                           && var rest := ReadRuns(page, precode, after.value, NextLane(l), n - 1);
                              r == if rest.Refused? then rest else Ok(rest.value.(runs := [s.value.what] + rest.value.runs))))
  {
    hide ReadRun, PrecodeOk, Total;
    var s := ReadRun(precode, st.lanes[l]);
    if s.Ok? {
      ConsumeReads(st, l, s.value.width);
      if Refill(page, Consume(st, l, s.value.width), l).Ok? {
        ReadThenRefill(page, st, Consume(st, l, s.value.width), l);
      }
    }
  }

  lemma RunsUnfold(acc: seq<nat>, run: Run, rest: seq<Run>)
    ensures RunsLength([run] + rest) == run.Length() + RunsLength(rest)
    ensures Runnable(acc, [run] + rest) <==> !(run.RepeatPrevious? && acc == []) && Runnable(Extended(acc, run), rest)
    ensures Unrun(acc, [run] + rest) == Unrun(Extended(acc, run), rest)
  {
    assert ([run] + rest)[1..] == rest;
  }

  /** What the vector's expansion does with one lane. */
  lemma ExpandUnfold(page: seq<byte>, precode: seq<nat>, st: Streams, acc: seq<nat>, total: nat, l: nat)
    requires PrecodeOk(precode) && Ready(st) && st.cursor <= WordCount(page) && l < NUM_STREAMS
    requires |acc| < total && InRange(acc, MAX_CODE_LEN)
    ensures var s, r := ReadRun(precode, st.lanes[l]), Expand(page, precode, st, acc, total, l);
            && (s.Refused? ==> r == Refused(s.why))
            && (s.Ok? ==>
                  && 1 <= s.value.what.Length() && 1 <= s.value.width <= |st.lanes[l]|
                  && var after := Refill(page, Consume(st, l, s.value.width), l);
                     if s.value.what.RepeatPrevious? && acc == [] then r == Refused(RepeatNothingBefore)
                     else if |acc| + s.value.what.Length() > total then r == Refused(RepeatRunPastAlphabet)
                     else if after.Refused? then r == Refused(after.why)
                     else
                       && Ready(after.value) && after.value.cursor <= WordCount(page)
                       && var acc' := Extended(acc, s.value.what);
                          && |acc'| == |acc| + s.value.what.Length() && InRange(acc', MAX_CODE_LEN)
                          && r == Expand(page, precode, after.value, acc', total, NextLane(l)))
  {
    hide ReadRun, PrecodeOk, Total;
    var s := ReadRun(precode, st.lanes[l]);
    if s.Ok? {
      ConsumeReads(st, l, s.value.width);
      if Refill(page, Consume(st, l, s.value.width), l).Ok? {
        ReadThenRefill(page, st, Consume(st, l, s.value.width), l);
      }
    }
  }

  /** A number of runs that fills the vector makes the expansion what they write,
      and leaves the streams as those reads leave them: no lane past the last of
      them gives up a bit. */
  lemma {:induction false} FilledExpands(page: seq<byte>, precode: seq<nat>, st: Streams, acc: seq<nat>, total: nat, l: nat, n: nat)
    requires PrecodeOk(precode) && Ready(st) && st.cursor <= WordCount(page) && l < NUM_STREAMS
    requires |acc| <= total && InRange(acc, MAX_CODE_LEN) && Fills(page, precode, st, acc, total, l, n)
    ensures var read := ReadRuns(page, precode, st, l, n).value;
            Expand(page, precode, st, acc, total, l) == Ok(Lengths(read.st, Unrun(acc, read.runs)))
    decreases n
  {
    hide ReadRun, PrecodeOk, Expand, ReadRuns, Refill, Extended;
    if n == 0 {
      NothingLeft(page, precode, st, acc, l);
    } else {
      ReadRunsUnfold(page, precode, st, l, n);
      var s := ReadRun(precode, st.lanes[l]).value;
      var after := Refill(page, Consume(st, l, s.width), l).value;
      RunsUnfold(acc, s.what, ReadRuns(page, precode, after, NextLane(l), n - 1).value.runs);
      ExpandUnfold(page, precode, st, acc, total, l);
      FilledExpands(page, precode, after, Extended(acc, s.what), total, NextLane(l), n - 1);
    }
  }

  lemma NothingLeft(page: seq<byte>, precode: seq<nat>, st: Streams, acc: seq<nat>, l: nat)
    requires PrecodeOk(precode) && Ready(st) && st.cursor <= WordCount(page) && l < NUM_STREAMS && InRange(acc, MAX_CODE_LEN)
    ensures Expand(page, precode, st, acc, |acc|, l) == Ok(Lengths(st, acc))
    ensures ReadRuns(page, precode, st, l, 0) == Ok(RunsRead([], st, l))
    ensures RunsLength([]) == 0 && Runnable(acc, []) && Unrun(acc, []) == acc
  {
  }

  lemma {:induction false} ExpandedFills(page: seq<byte>, precode: seq<nat>, st: Streams, acc: seq<nat>, total: nat, l: nat)
    returns (n: nat)
    requires PrecodeOk(precode) && Ready(st) && st.cursor <= WordCount(page) && l < NUM_STREAMS
    requires |acc| <= total && InRange(acc, MAX_CODE_LEN) && Expand(page, precode, st, acc, total, l).Ok?
    ensures Fills(page, precode, st, acc, total, l, n)
    decreases total - |acc|
  {
    hide ReadRun, PrecodeOk, Expand, ReadRuns, Refill, Extended;
    if |acc| == total {
      n := 0;
      NothingLeft(page, precode, st, acc, l);
    } else {
      ExpandUnfold(page, precode, st, acc, total, l);
      var s := ReadRun(precode, st.lanes[l]).value;
      var after := Refill(page, Consume(st, l, s.width), l).value;
      var m := ExpandedFills(page, precode, after, Extended(acc, s.what), total, NextLane(l));
      n := m + 1;
      ReadRunsUnfold(page, precode, st, l, n);
      RunsUnfold(acc, s.what, ReadRuns(page, precode, after, NextLane(l), m).value.runs);
    }
  }

  /** Reading fewer runs reads the first of them. */
  lemma {:induction false} FewerRuns(page: seq<byte>, precode: seq<nat>, st: Streams, l: nat, k: nat, n: nat)
    requires PrecodeOk(precode) && Ready(st) && st.cursor <= WordCount(page) && l < NUM_STREAMS && k <= n
    requires ReadRuns(page, precode, st, l, n).Ok?
    ensures var few := ReadRuns(page, precode, st, l, k);
            few.Ok? && few.value.runs == ReadRuns(page, precode, st, l, n).value.runs[..k]
    decreases k
  {
    hide ReadRun, PrecodeOk, Refill;
    if k > 0 {
      ReadRunsUnfold(page, precode, st, l, n);
      ReadRunsUnfold(page, precode, st, l, k);
      var after := Refill(page, Consume(st, l, ReadRun(precode, st.lanes[l]).value.width), l).value;
      FewerRuns(page, precode, after, NextLane(l), k - 1, n - 1);
    }
  }

  lemma {:induction false} FewerIsShorter(runs: seq<Run>, k: nat)
    requires k < |runs| && Lengthy(runs)
    ensures RunsLength(runs[..k]) < RunsLength(runs)
  {
    if k > 0 {
      assert runs[..k][1..] == runs[1..][..k - 1];
      FewerIsShorter(runs[1..], k - 1);
    }
  }

  /** The code lengths are the runs of the precode symbols in lane order, written
      out. The expansion is accepted exactly when some number of reads, with the
      words due between them, gives runs that can be written and come to exactly
      the two alphabets; that number is the only one and no fewer reads get there;
      and the lanes are left as just those reads leave them. */
  lemma ExpansionIsRuns(page: seq<byte>, precode: seq<nat>, st: Streams, acc: seq<nat>, total: nat, l: nat)
    requires PrecodeOk(precode) && Ready(st) && st.cursor <= WordCount(page) && l < NUM_STREAMS
    requires |acc| <= total && InRange(acc, MAX_CODE_LEN)
    ensures Expand(page, precode, st, acc, total, l).Ok? <==> exists n: nat :: Fills(page, precode, st, acc, total, l, n)
    ensures forall n: nat :: Fills(page, precode, st, acc, total, l, n) ==>
              var read := ReadRuns(page, precode, st, l, n).value;
              && Expand(page, precode, st, acc, total, l) == Ok(Lengths(read.st, Unrun(acc, read.runs)))
              && (forall k: nat :: k < n ==> FallsShort(page, precode, st, acc, total, l, k, read.runs))
              && forall m: nat :: Fills(page, precode, st, acc, total, l, m) ==> m == n
  {
    hide Expand, ReadRuns, Fills, FallsShort, PrecodeOk;
    if Expand(page, precode, st, acc, total, l).Ok? {
      var n := ExpandedFills(page, precode, st, acc, total, l);
    }
    forall n: nat | Fills(page, precode, st, acc, total, l, n)
      ensures var read := ReadRuns(page, precode, st, l, n);
              && read.Ok? && Expand(page, precode, st, acc, total, l) == Ok(Lengths(read.value.st, Unrun(acc, read.value.runs)))
              && (forall k: nat :: k < n ==> FallsShort(page, precode, st, acc, total, l, k, read.value.runs))
              && forall m: nat :: Fills(page, precode, st, acc, total, l, m) ==> m == n
    {
      FilledExpands(page, precode, st, acc, total, l, n);
      FillsSays(page, precode, st, acc, total, l, n);
      forall k: nat | k < n ensures FallsShort(page, precode, st, acc, total, l, k, ReadRuns(page, precode, st, l, n).value.runs) {
        ShortOfFilling(page, precode, st, acc, total, l, n, k);
      }
      forall m: nat | Fills(page, precode, st, acc, total, l, m) ensures m == n {
        FillsSays(page, precode, st, acc, total, l, m);
        if m < n { ShortOfFilling(page, precode, st, acc, total, l, n, m); }
        if n < m { ShortOfFilling(page, precode, st, acc, total, l, m, n); }
      }
    }
  }

  /** `k` reads give the first `k` of these runs, and do not fill the vector. */
  ghost predicate FallsShort(page: seq<byte>, precode: seq<nat>, st: Streams, acc: seq<nat>, total: nat, l: nat, k: nat, runs: seq<Run>)
    requires PrecodeOk(precode) && Ready(st) && st.cursor <= WordCount(page) && l < NUM_STREAMS
  {
    var few := ReadRuns(page, precode, st, l, k);
    && k <= |runs| && few.Ok? && few.value.runs == runs[..k] && |acc| + RunsLength(few.value.runs) < total
    && !Fills(page, precode, st, acc, total, l, k)
  }

  lemma FillsSays(page: seq<byte>, precode: seq<nat>, st: Streams, acc: seq<nat>, total: nat, l: nat, n: nat)
    requires PrecodeOk(precode) && Ready(st) && st.cursor <= WordCount(page) && l < NUM_STREAMS
    requires Fills(page, precode, st, acc, total, l, n)
    ensures ReadRuns(page, precode, st, l, n).Ok?
  {
  }

  lemma ShortOfFilling(page: seq<byte>, precode: seq<nat>, st: Streams, acc: seq<nat>, total: nat, l: nat, n: nat, k: nat)
    requires PrecodeOk(precode) && Ready(st) && st.cursor <= WordCount(page) && l < NUM_STREAMS && k < n
    requires Fills(page, precode, st, acc, total, l, n)
    ensures FallsShort(page, precode, st, acc, total, l, k, ReadRuns(page, precode, st, l, n).value.runs)
    ensures !Fills(page, precode, st, acc, total, l, k)
  {
    hide ReadRuns, PrecodeOk;
    FewerRuns(page, precode, st, l, k, n);
    FewerIsShorter(ReadRuns(page, precode, st, l, n).value.runs, k);
  }

  /** The next lane cannot add its run, and why. */
  ghost predicate StuckWith(page: seq<byte>, precode: seq<nat>, st: Streams, acc: seq<nat>, total: nat, l: nat, why: Reject)
    requires PrecodeOk(precode) && Ready(st) && st.cursor <= WordCount(page) && l < NUM_STREAMS
  {
    var s := ReadRun(precode, st.lanes[l]);
    if s.Refused? then why == s.why
    else if s.value.what.RepeatPrevious? && acc == [] then why == RepeatNothingBefore
    else if |acc| + s.value.what.Length() > total then why == RepeatRunPastAlphabet
    else Refill(page, Consume(st, l, s.value.width), l) == Refused(why)
  }

  /** `n` runs are read and written short of the vector, and the next is the one
      that cannot be. */
  ghost predicate StuckBehind(page: seq<byte>, precode: seq<nat>, st: Streams, acc: seq<nat>, total: nat, l: nat, n: nat, why: Reject)
    requires PrecodeOk(precode) && Ready(st) && st.cursor <= WordCount(page) && l < NUM_STREAMS
  {
    var read := ReadRuns(page, precode, st, l, n);
    && read.Ok? && Runnable(acc, read.value.runs) && |acc| + RunsLength(read.value.runs) < total
    && StuckWith(page, precode, read.value.st, Unrun(acc, read.value.runs), total, read.value.lane, why)
  }

  /** The expansion is refused exactly when, behind some runs it can write, the next
      lane's run is the first it cannot, and then for that run's reason. */
  lemma ExpansionRefused(page: seq<byte>, precode: seq<nat>, st: Streams, acc: seq<nat>, total: nat, l: nat, why: Reject)
    requires PrecodeOk(precode) && Ready(st) && st.cursor <= WordCount(page) && l < NUM_STREAMS
    requires |acc| <= total && InRange(acc, MAX_CODE_LEN)
    ensures Expand(page, precode, st, acc, total, l) == Refused(why)
            <==> exists n: nat :: StuckBehind(page, precode, st, acc, total, l, n, why)
  {
    hide Expand, StuckBehind, PrecodeOk;
    if Expand(page, precode, st, acc, total, l) == Refused(why) {
      var n := RefusedIsStuck(page, precode, st, acc, total, l, why);
    }
    forall n: nat | StuckBehind(page, precode, st, acc, total, l, n, why)
      ensures Expand(page, precode, st, acc, total, l) == Refused(why)
    {
      StuckIsRefused(page, precode, st, acc, total, l, n, why);
    }
  }

  lemma {:induction false} RefusedIsStuck(page: seq<byte>, precode: seq<nat>, st: Streams, acc: seq<nat>, total: nat, l: nat, why: Reject)
    returns (n: nat)
    requires PrecodeOk(precode) && Ready(st) && st.cursor <= WordCount(page) && l < NUM_STREAMS
    requires |acc| <= total && InRange(acc, MAX_CODE_LEN) && Expand(page, precode, st, acc, total, l) == Refused(why)
    ensures StuckBehind(page, precode, st, acc, total, l, n, why)
    decreases total - |acc|
  {
    hide ReadRun, PrecodeOk, Expand, ReadRuns, Extended;
    NothingLeft(page, precode, st, acc, l);
    n := 0;
    if !StuckWith(page, precode, st, acc, total, l, why) {
      ExpandUnfold(page, precode, st, acc, total, l);
      var s := ReadRun(precode, st.lanes[l]).value;
      var after := Refill(page, Consume(st, l, s.width), l).value;
      var m := RefusedIsStuck(page, precode, after, Extended(acc, s.what), total, NextLane(l), why);
      n := m + 1;
      ReadRunsUnfold(page, precode, st, l, n);
      RunsUnfold(acc, s.what, ReadRuns(page, precode, after, NextLane(l), m).value.runs);
    }
  }

  lemma {:induction false} StuckIsRefused(page: seq<byte>, precode: seq<nat>, st: Streams, acc: seq<nat>, total: nat, l: nat, n: nat, why: Reject)
    requires PrecodeOk(precode) && Ready(st) && st.cursor <= WordCount(page) && l < NUM_STREAMS
    requires |acc| <= total && InRange(acc, MAX_CODE_LEN) && StuckBehind(page, precode, st, acc, total, l, n, why)
    ensures Expand(page, precode, st, acc, total, l) == Refused(why)
    decreases n
  {
    hide ReadRun, PrecodeOk, Expand, ReadRuns, Extended;
    NothingLeft(page, precode, st, acc, l);
    if n == 0 {
      ExpandUnfold(page, precode, st, acc, total, l);
    } else {
      ReadRunsUnfold(page, precode, st, l, n);
      var s := ReadRun(precode, st.lanes[l]).value;
      var after := Refill(page, Consume(st, l, s.width), l).value;
      var rest := ReadRuns(page, precode, after, NextLane(l), n - 1).value.runs;
      RunsUnfold(acc, s.what, rest);
      ExpandUnfold(page, precode, st, acc, total, l);
      StuckIsRefused(page, precode, after, Extended(acc, s.what), total, NextLane(l), n - 1, why);
    }
  }
}
