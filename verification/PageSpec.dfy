/** What a GDeflate page says.

    The page is read here the way the format describes it: one lane after the
    other, no tables, no output buffer, no rounds of speculative reads and no
    fuel. A symbol is the one whose canonical codeword the lane begins with; a
    length reserves its output and the same lane's next step supplies the
    distance. The result is the token sequence of the page or the one reason it
    is refused, and every recursion ends because the page or the capacity does.

    Sources: src/gdeflate_block.h and the code-length rounds of
    src/gdeflate_tables.h. */
module PageSpec {
  import opened Bits
  import opened CanonicalCode
  import opened Schedule
  import opened HuffTable
  import opened Lz77

  const NUM_LITLEN_SYMS: nat := 288
  const NUM_DIST_SYMS: nat := 32
  const NUM_PRECODE_SYMS: nat := 19
  const MAX_PRECODE_LEN: nat := 7
  const END_OF_BLOCK: nat := 256
  const FIRST_LENGTH_SYM: nat := 257
  const MIN_MATCH_LEN: nat := 3

  const REPEAT_PREV: nat := 16
  const REPEAT_ZERO_SHORT: nat := 17

  /** Length symbol 257 + index: its base. The last three leave RFC 1951. */
  function LengthBase(index: nat): (r: nat)
    requires index < 31
    ensures 3 <= r <= 227
  {
    match index
    case 0 => 3 case 1 => 4 case 2 => 5 case 3 => 6 case 4 => 7 case 5 => 8 case 6 => 9 case 7 => 10
    case 8 => 11 case 9 => 13 case 10 => 15 case 11 => 17 case 12 => 19 case 13 => 23 case 14 => 27 case 15 => 31
    case 16 => 35 case 17 => 43 case 18 => 51 case 19 => 59 case 20 => 67 case 21 => 83 case 22 => 99 case 23 => 115
    case 24 => 131 case 25 => 163 case 26 => 195 case 27 => 227 case 28 => 3 case 29 => 3 case _ => 3
  }

  /** The width of the field added to that base. */
  function LengthExtra(index: nat): (r: nat)
    requires index < 31
    ensures r <= 16
  {
    match index
    case 0 => 0 case 1 => 0 case 2 => 0 case 3 => 0 case 4 => 0 case 5 => 0 case 6 => 0 case 7 => 0
    case 8 => 1 case 9 => 1 case 10 => 1 case 11 => 1 case 12 => 2 case 13 => 2 case 14 => 2 case 15 => 2
    case 16 => 3 case 17 => 3 case 18 => 3 case 19 => 3 case 20 => 4 case 21 => 4 case 22 => 4 case 23 => 4
    case 24 => 5 case 25 => 5 case 26 => 5 case 27 => 5 case 28 => 16 case 29 => 16 case _ => 16
  }

  /** Distance symbol: its base. Symbols 30 and 31 leave RFC 1951. */
  function DistBase(sym: nat): (r: nat)
    requires sym < 32
    ensures 1 <= r <= 49153
  {
    match sym
    case 0 => 1 case 1 => 2 case 2 => 3 case 3 => 4 case 4 => 5 case 5 => 7
    case 6 => 9 case 7 => 13 case 8 => 17 case 9 => 25 case 10 => 33 case 11 => 49
    case 12 => 65 case 13 => 97 case 14 => 129 case 15 => 193 case 16 => 257 case 17 => 385
    case 18 => 513 case 19 => 769 case 20 => 1025 case 21 => 1537 case 22 => 2049 case 23 => 3073
    case 24 => 4097 case 25 => 6145 case 26 => 8193 case 27 => 12289 case 28 => 16385 case 29 => 24577
    case 30 => 32769 case _ => 49153
  }

  /** The width of the field added to that base. */
  function DistExtra(sym: nat): (r: nat)
    requires sym < 32
    ensures r <= 14
  {
    match sym
    case 0 => 0 case 1 => 0 case 2 => 0 case 3 => 0 case 4 => 1 case 5 => 1 case 6 => 2 case 7 => 2
    case 8 => 3 case 9 => 3 case 10 => 4 case 11 => 4 case 12 => 5 case 13 => 5 case 14 => 6 case 15 => 6
    case 16 => 7 case 17 => 7 case 18 => 8 case 19 => 8 case 20 => 9 case 21 => 9 case 22 => 10 case 23 => 10
    case 24 => 11 case 25 => 11 case 26 => 12 case 27 => 12 case 28 => 13 case 29 => 13 case 30 => 14 case _ => 14
  }

  /** The i-th explicit precode length is the length of this symbol. */
  function PrecodeOrder(i: nat): (r: nat)
    requires i < 19
    ensures r < 19
  {
    match i
    case 0 => 16 case 1 => 17 case 2 => 18 case 3 => 0 case 4 => 8 case 5 => 7 case 6 => 9 case 7 => 6
    case 8 => 10 case 9 => 5 case 10 => 11 case 11 => 4 case 12 => 12 case 13 => 3 case 14 => 13 case 15 => 2
    case 16 => 14 case 17 => 1 case _ => 15
  }

  /** The rungs a page can reach. The others cannot be reached by any page: no
      lane runs short, no table is handed a vector it was not sized for, no
      complete code is without a codeword, and no fuel runs out. */
  predicate PageReject(why: Reject) {
    || why.PagePartialWord? || why.PageBelowPrimingRound? || why.RefillPastEnd?
    || why.TableOverSubscribed? || why.TableIncomplete? || why.EmptyTableUsed?
    || why.RepeatNothingBefore? || why.RepeatRunPastAlphabet?
    || why.BlockTypeReserved? || why.StoredPastCap? || why.StoredPastPage?
    || why.LiteralPastCap? || why.MatchPastCap? || why.MatchBeforeOutput?
  }

  // ----- one symbol -----

  /** The length vectors a table is accepted for. */
  ghost predicate IsCode(lens: seq<nat>, m: nat) {
    m >= 1 && (Complete(lens, m) || EmptyCode(lens) || exists s :: SingleCode(lens, s))
  }

  datatype Reading<+T> = Reading(what: T, width: nat)

  /** The symbol `bits` begins with. */
  ghost function Symbol(lens: seq<nat>, m: nat, bits: seq<bool>): (r: Result<Reading<nat>>)
    requires IsCode(lens, m) && |bits| >= m
    ensures r.Ok? ==> r.value.what < |lens| && 1 <= r.value.width <= m
    ensures r.Refused? ==> r.why == EmptyTableUsed
  {
    if Complete(lens, m) then
      CompleteIsUniquelyDecodable(lens, bits, m);
      var s: nat :| Matches(lens, s, bits);
      Ok(Reading(s, lens[s]))
    else if EmptyCode(lens) then Refused(EmptyTableUsed)
    else
      var s :| SingleCode(lens, s);
      Ok(Reading(s, 1))
  }

  datatype LitLen = Byte(b: byte) | EndOfBlock | Length(len: nat)

  /** A literal, the end of the block, or a length with its extra bits. */
  ghost function ReadLitLen(lens: seq<nat>, bits: seq<bool>): (r: Result<Reading<LitLen>>)
    requires IsCode(lens, MAX_CODE_LEN) && |lens| <= NUM_LITLEN_SYMS && |bits| >= LOW_WATERMARK_BITS
    ensures r.Ok? ==> 1 <= r.value.width <= 31
    ensures r.Refused? ==> r.why == EmptyTableUsed
    ensures r.Ok? && r.value.what.Length? ==> r.value.what.len >= MIN_MATCH_LEN
  {
    var s := Symbol(lens, MAX_CODE_LEN, bits);
    if s.Refused? then Refused(s.why)
    else
      var sym, w := s.value.what, s.value.width;
      if sym < END_OF_BLOCK then Ok(Reading(Byte(sym), w))
      else if sym == END_OF_BLOCK then Ok(Reading(EndOfBlock, w))
      else
        var extra := LengthExtra(sym - FIRST_LENGTH_SYM);
        Ok(Reading(Length(LengthBase(sym - FIRST_LENGTH_SYM) + Low(bits[w..w + extra])), w + extra))
  }

  /** A distance with its extra bits. */
  ghost function ReadDist(lens: seq<nat>, bits: seq<bool>): (r: Result<Reading<nat>>)
    requires IsCode(lens, MAX_CODE_LEN) && |lens| <= NUM_DIST_SYMS && |bits| >= LOW_WATERMARK_BITS
    ensures r.Ok? ==> 1 <= r.value.width <= 29 && r.value.what >= 1
    ensures r.Refused? ==> r.why == EmptyTableUsed
  {
    var s := Symbol(lens, MAX_CODE_LEN, bits);
    if s.Refused? then Refused(s.why)
    else
      var sym, w := s.value.what, s.value.width;
      var extra := DistExtra(sym);
      Ok(Reading(DistBase(sym) + Low(bits[w..w + extra]), w + extra))
  }

  // ----- the symbol steps of a block -----

  datatype Codes = Codes(litlen: seq<nat>, dist: seq<nat>)

  ghost predicate CodesOk(c: Codes) {
    && IsCode(c.litlen, MAX_CODE_LEN) && |c.litlen| <= NUM_LITLEN_SYMS
    && IsCode(c.dist, MAX_CODE_LEN) && |c.dist| <= NUM_DIST_SYMS
  }

  /** The token a lane has reserved and still owes a distance. */
  datatype Pending = Idle | Owes(token: nat)

  datatype Parse = Parse(st: Streams, tokens: seq<Token>, pend: seq<Pending>)

  function PendCount(pend: seq<Pending>): (n: nat)
    ensures n <= |pend|
  {
    if pend == [] then 0 else PendCount(pend[..|pend| - 1]) + (if pend[|pend| - 1].Owes? then 1 else 0)
  }

  /** Lanes and reservations name each other. */
  predicate Linked(tokens: seq<Token>, pend: seq<Pending>) {
    && |pend| == NUM_STREAMS
    && (forall l :: 0 <= l < |pend| && pend[l].Owes? ==>
          pend[l].token < |tokens| && tokens[pend[l].token].Reserved? && tokens[pend[l].token].lane == l)
    && (forall j :: 0 <= j < |tokens| && tokens[j].Reserved? ==>
          tokens[j].lane < NUM_STREAMS && pend[tokens[j].lane] == Owes(j))
  }

  predicate Live(page: seq<byte>, cap: nat, p: Parse) {
    Ready(p.st) && p.st.cursor <= WordCount(page) && OutLen(p.tokens) <= cap && Linked(p.tokens, p.pend)
  }

  /** One lane gave up some bits and nothing else moved. */
  predicate ReadFrom(st: Streams, after: Streams, l: nat) {
    && |st.lanes| == |after.lanes| == NUM_STREAMS && after.cursor == st.cursor
    && (forall i :: 0 <= i < NUM_STREAMS && i != l ==> after.lanes[i] == st.lanes[i])
    && Total(after.lanes) <= Total(st.lanes)
  }

  lemma ConsumeReads(st: Streams, l: nat, width: nat)
    requires Ready(st) && l < NUM_STREAMS && width <= LOW_WATERMARK_BITS
    ensures ReadFrom(st, Consume(st, l, width), l)
  {
    TotalUpdate(st.lanes, l, st.lanes[l][width..]);
  }

  /** The distance a lane owes: the match may not begin before the output. */
  ghost function Retire(c: Codes, p: Parse, l: nat): (r: Result<Parse>)
    requires CodesOk(c) && Ready(p.st) && Linked(p.tokens, p.pend) && l < NUM_STREAMS && p.pend[l].Owes?
    ensures r.Ok? ==> ReadFrom(p.st, r.value.st, l)
    ensures r.Ok? ==> Linked(r.value.tokens, r.value.pend) && OutLen(r.value.tokens) == OutLen(p.tokens)
    ensures r.Ok? ==> PendCount(r.value.pend) == PendCount(p.pend) - 1 && r.value.pend == p.pend[l := Idle]
    ensures r.Refused? ==> PageReject(r.why)
  {
    var j := p.pend[l].token;
    var d := ReadDist(c.dist, p.st.lanes[l]);
    if d.Refused? then Refused(d.why)
    else if d.value.what > Start(p.tokens, j) then Refused(MatchBeforeOutput)
    else
      ConsumeReads(p.st, l, d.value.width);
      SettleKeeps(p.tokens, p.pend, l, d.value.what);
      Ok(Parse(Consume(p.st, l, d.value.width),
               p.tokens[j := Match(p.tokens[j].len, d.value.what)],
               p.pend[l := Idle]))
  }

  lemma SettleKeeps(tokens: seq<Token>, pend: seq<Pending>, l: nat, dist: nat)
    requires Linked(tokens, pend) && l < NUM_STREAMS && pend[l].Owes?
    ensures var j := pend[l].token;
            var tokens' := tokens[j := Match(tokens[j].len, dist)];
            Linked(tokens', pend[l := Idle]) && OutLen(tokens') == OutLen(tokens)
    ensures PendCount(pend[l := Idle]) == PendCount(pend) - 1
  {
    var j := pend[l].token;
    SameLengths(tokens, tokens[j := Match(tokens[j].len, dist)]);
    PendUpdate(pend, l, Idle);
  }

  lemma LiteralKeeps(tokens: seq<Token>, pend: seq<Pending>, b: byte)
    requires Linked(tokens, pend)
    ensures Linked(tokens + [Literal(b)], pend) && OutLen(tokens + [Literal(b)]) == OutLen(tokens) + 1
  {
    AppendStarts(tokens, Literal(b));
  }

  lemma ReserveKeeps(tokens: seq<Token>, pend: seq<Pending>, l: nat, len: nat)
    requires Linked(tokens, pend) && l < NUM_STREAMS && pend[l].Idle?
    ensures Linked(tokens + [Reserved(len, l)], pend[l := Owes(|tokens|)])
    ensures OutLen(tokens + [Reserved(len, l)]) == OutLen(tokens) + len
    ensures PendCount(pend[l := Owes(|tokens|)]) == PendCount(pend) + 1
  {
    AppendStarts(tokens, Reserved(len, l));
    PendUpdate(pend, l, Owes(|tokens|));
  }

  datatype Outcome = More(p: Parse) | Ended(p: Parse)

  /** What a lane that owes nothing reads next. */
  ghost function ReadNext(c: Codes, cap: nat, p: Parse, l: nat): (r: Result<Outcome>)
    requires CodesOk(c) && Ready(p.st) && Linked(p.tokens, p.pend) && l < NUM_STREAMS && p.pend[l].Idle?
    requires OutLen(p.tokens) <= cap
    ensures r.Ok? ==> ReadFrom(p.st, r.value.p.st, l)
    ensures r.Ok? ==> Linked(r.value.p.tokens, r.value.p.pend) && OutLen(p.tokens) <= OutLen(r.value.p.tokens) <= cap
    ensures r.Ok? && r.value.Ended? ==> r.value.p.tokens == p.tokens && r.value.p.pend == p.pend
    ensures r.Ok? && r.value.More? ==>
              OutLen(r.value.p.tokens) - OutLen(p.tokens) > PendCount(r.value.p.pend) - PendCount(p.pend)
    ensures r.Refused? ==> PageReject(r.why)
  {
    var s := ReadLitLen(c.litlen, p.st.lanes[l]);
    if s.Refused? then Refused(s.why)
    else
      ConsumeReads(p.st, l, s.value.width);
      var st := Consume(p.st, l, s.value.width);
      match s.value.what
      case Byte(b) =>
        LiteralKeeps(p.tokens, p.pend, b);
        if OutLen(p.tokens) >= cap then Refused(LiteralPastCap)
        else Ok(More(Parse(st, p.tokens + [Literal(b)], p.pend)))
      case Length(len) =>
        ReserveKeeps(p.tokens, p.pend, l, len);
        if len > cap - OutLen(p.tokens) then Refused(MatchPastCap)
        else Ok(More(Parse(st, p.tokens + [Reserved(len, l)], p.pend[l := Owes(|p.tokens|)])))
      case EndOfBlock => Ok(Ended(p.(st := st)))
  }

  function Refilled(page: seq<byte>, p: Parse, l: nat): (r: Result<Parse>)
    requires l < |p.st.lanes|
    ensures r.Refused? ==> PageReject(r.why)
  {
    var st := Refill(page, p.st, l);
    if st.Refused? then Refused(st.why) else Ok(p.(st := st.value))
  }

  /** One lane's step, and the word that lane is due behind it. */
  ghost function SymbolStep(page: seq<byte>, c: Codes, cap: nat, p: Parse, l: nat): (r: Result<Outcome>)
    requires CodesOk(c) && Live(page, cap, p) && l < NUM_STREAMS
    ensures r.Refused? ==> PageReject(r.why)
  {
    if p.pend[l].Owes? then
      var paid := Retire(c, p, l);
      if paid.Refused? then Refused(paid.why)
      else
        var q := Refilled(page, paid.value, l);
        if q.Refused? then Refused(q.why) else Ok(More(q.value))
    else
      var next := ReadNext(c, cap, p, l);
      if next.Refused? then Refused(next.why)
      else
        var q := Refilled(page, next.value.p, l);
        if q.Refused? then Refused(q.why) else Ok(if next.value.Ended? then Ended(q.value) else More(q.value))
  }

  /** A lane's step once the block has ended: it only pays what it owes. */
  ghost function DrainStep(page: seq<byte>, c: Codes, cap: nat, p: Parse, l: nat): (r: Result<Parse>)
    requires CodesOk(c) && Live(page, cap, p) && l < NUM_STREAMS
    ensures r.Refused? ==> PageReject(r.why)
  {
    if p.pend[l].Owes? then
      var paid := Retire(c, p, l);
      if paid.Refused? then Refused(paid.why) else Refilled(page, paid.value, l)
    else Refilled(page, p, l)
  }

  function NextLane(l: nat): nat {
    if l + 1 >= NUM_STREAMS then 0 else l + 1
  }

  /** How much output and how many retirements are still to come: every step
      that does not end the block spends some of it. */
  function Budget(cap: nat, p: Parse): nat
    requires OutLen(p.tokens) <= cap
  {
    cap - OutLen(p.tokens) + PendCount(p.pend)
  }

  /** The block from lane `l` on, to the end of its drain. */
  ghost function Symbols(page: seq<byte>, c: Codes, cap: nat, p: Parse, l: nat): (r: Result<Parse>)
    requires CodesOk(c) && Live(page, cap, p) && l < NUM_STREAMS
    ensures r.Ok? ==> Live(page, cap, r.value) && Remaining(page, r.value.st) <= Remaining(page, p.st)
    ensures r.Ok? ==> Settled(r.value.tokens) && OutLen(p.tokens) <= OutLen(r.value.tokens)
    ensures r.Refused? ==> PageReject(r.why)
    decreases Budget(cap, p)
  {
    var s := SymbolStep(page, c, cap, p, l);
    if s.Refused? then Refused(s.why)
    else
      SymbolStepKeeps(page, c, cap, p, l);
      if s.value.More? then Symbols(page, c, cap, s.value.p, NextLane(l))
      else
        OthersOwe(p.pend, l);
        Drain(page, c, cap, s.value.p, NextLane(l), NUM_STREAMS - 1)
  }

  /** The steps a block takes before the one that ends it, or before a refusal.
      Each claims output or pays for output already claimed. */
  ghost function Steps(page: seq<byte>, c: Codes, cap: nat, p: Parse, l: nat): (n: nat)
    requires CodesOk(c) && Live(page, cap, p) && l < NUM_STREAMS
    ensures n <= Budget(cap, p)
    decreases Budget(cap, p)
  {
    var s := SymbolStep(page, c, cap, p, l);
    if s.Refused? then 0
    else
      SymbolStepKeeps(page, c, cap, p, l);
      if s.value.More? then 1 + Steps(page, c, cap, s.value.p, NextLane(l)) else 0
  }

  /** Lane `i` is one of the `n` lanes from lane `l` on. */
  predicate AmongNext(l: nat, n: nat, i: nat) {
    if i >= l then i - l < n else i + NUM_STREAMS - l < n
  }

  predicate OnlyNextOwe(pend: seq<Pending>, l: nat, n: nat) {
    forall i :: 0 <= i < |pend| && pend[i].Owes? ==> AmongNext(l, n, i)
  }

  lemma OthersOwe(pend: seq<Pending>, l: nat)
    requires |pend| == NUM_STREAMS && l < NUM_STREAMS && pend[l].Idle?
    ensures OnlyNextOwe(pend, NextLane(l), NUM_STREAMS - 1)
  {
  }

  /** `n` more lanes from lane `l` pay what they owe. */
  ghost function Drain(page: seq<byte>, c: Codes, cap: nat, p: Parse, l: nat, n: nat): (r: Result<Parse>)
    requires CodesOk(c) && Live(page, cap, p) && l < NUM_STREAMS && n < NUM_STREAMS && OnlyNextOwe(p.pend, l, n)
    ensures r.Ok? ==> Live(page, cap, r.value) && Remaining(page, r.value.st) <= Remaining(page, p.st)
    ensures r.Ok? ==> Settled(r.value.tokens) && OutLen(p.tokens) == OutLen(r.value.tokens)
    ensures r.Refused? ==> PageReject(r.why)
    decreases n
  {
    if n == 0 then Ok(p)
    else
      var s := DrainStep(page, c, cap, p, l);
      if s.Refused? then Refused(s.why)
      else
        DrainStepKeeps(page, c, cap, p, l);
        Drain(page, c, cap, s.value, NextLane(l), n - 1)
  }

  // ----- every step keeps the parse live -----

  lemma {:induction false} PendUpdate(pend: seq<Pending>, l: nat, x: Pending)
    requires l < |pend|
    ensures PendCount(pend[l := x]) == PendCount(pend) - (if pend[l].Owes? then 1 else 0) + (if x.Owes? then 1 else 0)
  {
    var n := |pend| - 1;
    if l < n {
      PendUpdate(pend[..n], l, x);
      assert pend[l := x][..n] == pend[..n][l := x];
    } else {
      assert pend[l := x][..n] == pend[..n];
    }
  }

  /** Behind a read, a refill restores the watermark. */
  lemma ReadThenRefill(page: seq<byte>, st: Streams, after: Streams, l: nat)
    requires Ready(st) && l < NUM_STREAMS && st.cursor <= WordCount(page)
    requires ReadFrom(st, after, l) && Refill(page, after, l).Ok?
    ensures var r := Refill(page, after, l).value;
            Ready(r) && r.cursor <= WordCount(page) && Remaining(page, r) <= Remaining(page, st)
  {
    RefillKeeps(page, after, l);
  }

  lemma SymbolStepKeeps(page: seq<byte>, c: Codes, cap: nat, p: Parse, l: nat)
    requires CodesOk(c) && Live(page, cap, p) && l < NUM_STREAMS && SymbolStep(page, c, cap, p, l).Ok?
    ensures var r := SymbolStep(page, c, cap, p, l).value;
            && Live(page, cap, r.p) && Remaining(page, r.p.st) <= Remaining(page, p.st)
            && OutLen(p.tokens) <= OutLen(r.p.tokens)
            && (r.More? ==> Budget(cap, r.p) < Budget(cap, p))
            && (r.Ended? ==> r.p.pend == p.pend && p.pend[l].Idle? && r.p.tokens == p.tokens)
  {
    if p.pend[l].Owes? {
      ReadThenRefill(page, p.st, Retire(c, p, l).value.st, l);
    } else {
      ReadThenRefill(page, p.st, ReadNext(c, cap, p, l).value.p.st, l);
    }
  }

  lemma DrainStepKeeps(page: seq<byte>, c: Codes, cap: nat, p: Parse, l: nat)
    requires CodesOk(c) && Live(page, cap, p) && l < NUM_STREAMS && DrainStep(page, c, cap, p, l).Ok?
    ensures var r := DrainStep(page, c, cap, p, l).value;
            && Live(page, cap, r) && Remaining(page, r.st) <= Remaining(page, p.st)
            && OutLen(p.tokens) == OutLen(r.tokens)
            && (forall i :: 0 <= i < NUM_STREAMS && r.pend[i].Owes? ==> i != l && p.pend[i].Owes?)
  {
    if p.pend[l].Owes? {
      ReadThenRefill(page, p.st, Retire(c, p, l).value.st, l);
    } else {
      RefillKeeps(page, p.st, l);
    }
  }

  // ----- stored blocks -----

  /** Between blocks lane 0 may be below the watermark by a stored length. */
  predicate AtBlock(page: seq<byte>, st: Streams) {
    && |st.lanes| == NUM_STREAMS && st.cursor <= WordCount(page)
    && |st.lanes[0]| >= 16 && forall l :: 1 <= l < NUM_STREAMS ==> |st.lanes[l]| >= LOW_WATERMARK_BITS
  }

  datatype Body = Body(st: Streams, tokens: seq<Token>)

  lemma ByteField(bits: seq<bool>)
    requires |bits| == 8
    ensures Low(bits) < 0x100
  {
    BitsOfLow(bits);
    assert Pow2(8) == 0x100;
  }

  /** One byte per lane, lane order, each lane refilled behind it. */
  function StoredBytes(page: seq<byte>, st: Streams, tokens: seq<Token>, l: nat, n: nat): (r: Result<Body>)
    requires AtBlock(page, st) && l < NUM_STREAMS && Settled(tokens)
    ensures r.Ok? ==> AtBlock(page, r.value.st) && Remaining(page, r.value.st) <= Remaining(page, st)
    ensures r.Ok? ==> Settled(r.value.tokens) && OutLen(r.value.tokens) == OutLen(tokens) + n
    ensures r.Refused? ==> r.why == RefillPastEnd
    decreases n
  {
    if n == 0 then Ok(Body(st, tokens))
    else
      ByteField(st.lanes[l][..8]);
      var b: byte := Field(st, l, 8);
      var after := Refill(page, Consume(st, l, 8), l);
      ConsumeSpends(page, st, l, 8);
      if after.Refused? then Refused(after.why)
      else
        RefillKeeps(page, Consume(st, l, 8), l);
        AppendStarts(tokens, Literal(b));
        StoredBytes(page, after.value, tokens + [Literal(b)], NextLane(l), n - 1)
  }

  /** What is left: the undealt words and the queues, in bytes. */
  function BytesLeft(page: seq<byte>, st: Streams): nat
    requires st.cursor <= WordCount(page)
  {
    (WordCount(page) - st.cursor) * (BITS_PER_PACKET / 8) + (Total(st.lanes) + 7) / 8
  }

  function StoredBlock(page: seq<byte>, cap: nat, st: Streams, tokens: seq<Token>): (r: Result<Body>)
    requires Ready(st) && st.cursor <= WordCount(page) && Settled(tokens) && OutLen(tokens) <= cap
    ensures r.Ok? ==> AtBlock(page, r.value.st) && Remaining(page, r.value.st) <= Remaining(page, st)
    ensures r.Ok? ==> Settled(r.value.tokens) && OutLen(tokens) <= OutLen(r.value.tokens) <= cap
    ensures r.Refused? ==> PageReject(r.why)
  {
    var len := Field(st, 0, 16);
    if len > cap - OutLen(tokens) then Refused(StoredPastCap)
    else if len > BytesLeft(page, st) then Refused(StoredPastPage)
    else
      ConsumeSpends(page, st, 0, 16);
      StoredBytes(page, Consume(st, 0, 16), tokens, 0, len)
  }

  // ----- the code lengths of a dynamic block -----

  /** One entry of the run-length coded length vector (RFC 1951, 3.2.7). */
  datatype Run = Explicit(len: nat) | RepeatPrevious(n: nat) | Zeros(n: nat)
  {
    function Length(): nat {
      match this
      case Explicit(_) => 1
      case RepeatPrevious(n) => n
      case Zeros(n) => n
    }
  }

  function Extend(acc: seq<nat>, run: Run): seq<nat>
    requires run.RepeatPrevious? ==> acc != []
  {
    match run
    case Explicit(len) => acc + [len]
    case RepeatPrevious(n) => acc + Repeat(acc[|acc| - 1], n)
    case Zeros(n) => acc + Repeat(0, n)
  }

  ghost predicate PrecodeOk(lens: seq<nat>) {
    IsCode(lens, MAX_PRECODE_LEN) && |lens| == NUM_PRECODE_SYMS
  }

  ghost function ReadRun(precode: seq<nat>, bits: seq<bool>): (r: Result<Reading<Run>>)
    requires PrecodeOk(precode) && |bits| >= LOW_WATERMARK_BITS
    ensures r.Ok? ==> 1 <= r.value.width <= 14 && r.value.what.Length() >= 1
    ensures r.Refused? ==> r.why == EmptyTableUsed
    ensures r.Ok? && r.value.what.Explicit? ==> r.value.what.len <= MAX_CODE_LEN
  {
    var s := Symbol(precode, MAX_PRECODE_LEN, bits);
    if s.Refused? then Refused(s.why)
    else
      var sym, w := s.value.what, s.value.width;
      if sym < REPEAT_PREV then Ok(Reading(Explicit(sym), w))
      else if sym == REPEAT_PREV then Ok(Reading(RepeatPrevious(3 + Low(bits[w..w + 2])), w + 2))
      else if sym == REPEAT_ZERO_SHORT then Ok(Reading(Zeros(3 + Low(bits[w..w + 3])), w + 3))
      else Ok(Reading(Zeros(11 + Low(bits[w..w + 7])), w + 7))
  }

  datatype Lengths = Lengths(st: Streams, lens: seq<nat>)

  /** Lane after lane contributes a run, and no lane is read once the vector is
      full. */
  ghost function Expand(page: seq<byte>, precode: seq<nat>, st: Streams, acc: seq<nat>, total: nat, l: nat): (r: Result<Lengths>)
    requires PrecodeOk(precode) && Ready(st) && st.cursor <= WordCount(page) && l < NUM_STREAMS
    requires |acc| <= total && InRange(acc, MAX_CODE_LEN)
    ensures r.Ok? ==> Ready(r.value.st) && r.value.st.cursor <= WordCount(page)
    ensures r.Ok? ==> Remaining(page, r.value.st) <= Remaining(page, st)
    ensures r.Ok? ==> |r.value.lens| == total && InRange(r.value.lens, MAX_CODE_LEN) && acc <= r.value.lens
    ensures r.Refused? ==> PageReject(r.why)
    decreases total - |acc|
  {
    if |acc| == total then Ok(Lengths(st, acc))
    else
      var s := ReadRun(precode, st.lanes[l]);
      if s.Refused? then Refused(s.why)
      else if s.value.what.RepeatPrevious? && acc == [] then Refused(RepeatNothingBefore)
      else if s.value.what.Length() > total - |acc| then Refused(RepeatRunPastAlphabet)
      else
        ConsumeReads(st, l, s.value.width);
        var after := Refill(page, Consume(st, l, s.value.width), l);
        if after.Refused? then Refused(after.why)
        else
          ReadThenRefill(page, st, Consume(st, l, s.value.width), l);
          var acc' := Extend(acc, s.value.what);
          Expand(page, precode, after.value, acc', total, NextLane(l))
  }

  /** Lane i holds the i-th explicit precode length, in the permuted order. */
  function PrecodeLengths(page: seq<byte>, st: Streams, lens: seq<nat>, i: nat, n: nat): (r: Result<Lengths>)
    requires Ready(st) && st.cursor <= WordCount(page) && i <= n <= NUM_PRECODE_SYMS
    requires |lens| == NUM_PRECODE_SYMS && InRange(lens, MAX_PRECODE_LEN)
    ensures r.Ok? ==> Ready(r.value.st) && r.value.st.cursor <= WordCount(page)
    ensures r.Ok? ==> Remaining(page, r.value.st) <= Remaining(page, st)
    ensures r.Ok? ==> |r.value.lens| == NUM_PRECODE_SYMS && InRange(r.value.lens, MAX_PRECODE_LEN)
    ensures r.Refused? ==> PageReject(r.why)
    decreases n - i
  {
    if i == n then Ok(Lengths(st, lens))
    else
      ThreeBits(st.lanes[i][..3]);
      ConsumeReads(st, i, 3);
      var after := Refill(page, Consume(st, i, 3), i);
      if after.Refused? then Refused(after.why)
      else
        ReadThenRefill(page, st, Consume(st, i, 3), i);
        PrecodeLengths(page, after.value, lens[PrecodeOrder(i) := Field(st, i, 3)], i + 1, n)
  }

  lemma ThreeBits(bits: seq<bool>)
    requires |bits| == 3
    ensures Low(bits) <= MAX_PRECODE_LEN
  {
    BitsOfLow(bits);
    assert Pow2(3) == 8;
  }

  lemma CountBits(bits: seq<bool>)
    ensures |bits| == 5 ==> Low(bits) < 32
    ensures |bits| == 4 ==> Low(bits) < 16
  {
    BitsOfLow(bits);
    assert Pow2(5) == 32 && Pow2(4) == 16;
  }

  datatype Counts = Counts(litlen: nat, dist: nat, precode: nat, st: Streams)

  /** Fourteen bits at the front of lane 0: the three counts, each less its bias. */
  function ReadCounts(st: Streams): (c: Counts)
    requires Ready(st)
    ensures 257 <= c.litlen <= NUM_LITLEN_SYMS && 1 <= c.dist <= NUM_DIST_SYMS && 4 <= c.precode <= NUM_PRECODE_SYMS
    ensures ReadFrom(st, c.st, 0)
  {
    var bits := st.lanes[0];
    CountBits(bits[0..5]);
    CountBits(bits[5..10]);
    CountBits(bits[10..14]);
    ConsumeReads(st, 0, 14);
    Counts(257 + Low(bits[0..5]), 1 + Low(bits[5..10]), 4 + Low(bits[10..14]), Consume(st, 0, 14))
  }

  datatype Dynamic = Dynamic(st: Streams, codes: Codes)

  lemma VerdictIsCode(lens: seq<nat>, cap: nat, m: nat)
    requires m >= 1 && Verdict(lens, cap, m).Ok?
    ensures IsCode(lens, m) && |lens| <= cap
  {
  }

  /** The two length vectors of a dynamic block. */
  datatype Vectors = Vectors(st: Streams, litlen: seq<nat>, dist: seq<nat>)

  /** The expansion starts at lane 0 again and fills both vectors as one. */
  ghost function ExpandVectors(page: seq<byte>, precode: seq<nat>, st: Streams, numLitlen: nat, numDist: nat): (r: Result<Vectors>)
    requires PrecodeOk(precode) && Ready(st) && st.cursor <= WordCount(page)
    ensures r.Ok? ==> Ready(r.value.st) && r.value.st.cursor <= WordCount(page)
    ensures r.Ok? ==> Remaining(page, r.value.st) <= Remaining(page, st)
    ensures r.Ok? ==> |r.value.litlen| == numLitlen && |r.value.dist| == numDist
    ensures r.Ok? ==> InRange(r.value.litlen, MAX_CODE_LEN) && InRange(r.value.dist, MAX_CODE_LEN)
    ensures r.Refused? ==> PageReject(r.why)
  {
    var all := Expand(page, precode, st, [], numLitlen + numDist, 0);
    if all.Refused? then Refused(all.why)
    else Ok(Vectors(all.value.st, all.value.lens[..numLitlen], all.value.lens[numLitlen..]))
  }

  /** The precode's lengths must be a code before they are read with. */
  ghost function ReadWithPrecode(page: seq<byte>, st: Streams, c: Counts): (r: Result<Vectors>)
    requires Ready(st) && st.cursor <= WordCount(page) && c.precode <= NUM_PRECODE_SYMS
    ensures r.Ok? ==> Ready(r.value.st) && r.value.st.cursor <= WordCount(page)
    ensures r.Ok? ==> Remaining(page, r.value.st) <= Remaining(page, st)
    ensures r.Ok? ==> |r.value.litlen| == c.litlen && |r.value.dist| == c.dist
    ensures r.Ok? ==> InRange(r.value.litlen, MAX_CODE_LEN) && InRange(r.value.dist, MAX_CODE_LEN)
    ensures r.Refused? ==> PageReject(r.why)
  {
    var pre := PrecodeLengths(page, st, Repeat(0, NUM_PRECODE_SYMS), 0, c.precode);
    if pre.Refused? then Refused(pre.why)
    else
      var v := Verdict(pre.value.lens, NUM_PRECODE_SYMS, MAX_PRECODE_LEN);
      if v.Refused? then Refused(v.why)
      else
        VerdictIsCode(pre.value.lens, NUM_PRECODE_SYMS, MAX_PRECODE_LEN);
        ExpandVectors(page, pre.value.lens, pre.value.st, c.litlen, c.dist)
  }

  ghost function ReadVectors(page: seq<byte>, st: Streams): (r: Result<Vectors>)
    requires Ready(st) && st.cursor <= WordCount(page)
    ensures r.Ok? ==> Ready(r.value.st) && r.value.st.cursor <= WordCount(page)
    ensures r.Ok? ==> Remaining(page, r.value.st) <= Remaining(page, st)
    ensures r.Ok? ==> |r.value.litlen| <= NUM_LITLEN_SYMS && |r.value.dist| <= NUM_DIST_SYMS
    ensures r.Ok? ==> InRange(r.value.litlen, MAX_CODE_LEN) && InRange(r.value.dist, MAX_CODE_LEN)
    ensures r.Refused? ==> PageReject(r.why)
  {
    var c := ReadCounts(st);
    var primed := Refill(page, c.st, 0);
    if primed.Refused? then Refused(primed.why)
    else
      ReadThenRefill(page, st, c.st, 0);
      ReadWithPrecode(page, primed.value, c)
  }

  /** Both vectors must be codes. */
  ghost function ReadDynamic(page: seq<byte>, st: Streams): (r: Result<Dynamic>)
    requires Ready(st) && st.cursor <= WordCount(page)
    ensures r.Ok? ==> Ready(r.value.st) && r.value.st.cursor <= WordCount(page) && CodesOk(r.value.codes)
    ensures r.Ok? ==> Remaining(page, r.value.st) <= Remaining(page, st)
    ensures r.Refused? ==> PageReject(r.why)
  {
    var v := ReadVectors(page, st);
    if v.Refused? then Refused(v.why) else BuildCodes(v.value)
  }

  ghost function BuildCodes(v: Vectors): (r: Result<Dynamic>)
    ensures |v.litlen| <= NUM_LITLEN_SYMS && InRange(v.litlen, MAX_CODE_LEN) && |v.dist| <= NUM_DIST_SYMS && InRange(v.dist, MAX_CODE_LEN) ==>
              (r.Refused? ==> PageReject(r.why))
    ensures r.Ok? ==> r.value.st == v.st && CodesOk(r.value.codes)
  {
    var l, d := Verdict(v.litlen, NUM_LITLEN_SYMS, MAX_CODE_LEN), Verdict(v.dist, NUM_DIST_SYMS, MAX_CODE_LEN);
    if l.Refused? then Refused(l.why)
    else if d.Refused? then Refused(d.why)
    else
      VerdictIsCode(v.litlen, NUM_LITLEN_SYMS, MAX_CODE_LEN);
      VerdictIsCode(v.dist, NUM_DIST_SYMS, MAX_CODE_LEN);
      Ok(Dynamic(v.st, Codes(v.litlen, v.dist)))
  }

  // ----- the static codes -----

  /** The fixed lengths of section 3.2.6 of RFC 1951. */
  const STATIC_LITLEN: seq<nat> :=
    Repeat(8, 144) + Repeat(9, 112) + Repeat(7, 24) + Repeat(8, 8)

  const STATIC_DIST: seq<nat> := Repeat(5, NUM_DIST_SYMS)

  lemma {:induction false} KraftOfRun(len: nat, n: nat, m: nat)
    ensures Kraft(Repeat(len, n), m) == n * Share(len, m)
  {
    if n > 0 {
      KraftOfRun(len, n - 1, m);
      assert Repeat(len, n)[..n - 1] == Repeat(len, n - 1);
      Distribute(n - 1, 1, Share(len, m));
    }
  }

  lemma {:induction false} KraftOfJoin(a: seq<nat>, b: seq<nat>, m: nat)
    ensures Kraft(a + b, m) == Kraft(a, m) + Kraft(b, m)
  {
    if b == [] {
      assert a + b == a;
    } else {
      var n := |b| - 1;
      KraftOfJoin(a, b[..n], m);
      assert (a + b)[..|a + b| - 1] == a + b[..n];
    }
  }

  /** Both static vectors are complete codes, so a static block always builds. */
  lemma StaticCodesOk()
    ensures |STATIC_LITLEN| == NUM_LITLEN_SYMS && Complete(STATIC_LITLEN, MAX_CODE_LEN)
    ensures |STATIC_DIST| == NUM_DIST_SYMS && Complete(STATIC_DIST, MAX_CODE_LEN)
  {
    var a, b, c, d := Repeat(8, 144), Repeat(9, 112), Repeat(7, 24), Repeat(8, 8);
    KraftOfJoin(a + b + c, d, 15);
    KraftOfJoin(a + b, c, 15);
    KraftOfJoin(a, b, 15);
    KraftOfRun(8, 144, 15);
    KraftOfRun(9, 112, 15);
    KraftOfRun(7, 24, 15);
    KraftOfRun(8, 8, 15);
    KraftOfRun(5, NUM_DIST_SYMS, 15);
    assert Pow2(10) == 1024;
    assert Pow2(15) == 32 * Pow2(10) && Pow2(7) == 128 && Pow2(6) == 64 && Pow2(8) == 256;
  }

  ghost function StaticCodes(): (c: Codes)
    ensures CodesOk(c)
  {
    StaticCodesOk();
    Codes(STATIC_LITLEN, STATIC_DIST)
  }

  // ----- the page -----

  datatype BlockType = Stored | Static | DynamicHuffman

  /** What one block was, and how many bytes it produced. */
  datatype Block = Block(kind: BlockType, bytes: nat)

  function BytesOf(blocks: seq<Block>): nat {
    if blocks == [] then 0 else BytesOf(blocks[..|blocks| - 1]) + blocks[|blocks| - 1].bytes
  }

  datatype Page = Page(tokens: seq<Token>, blocks: seq<Block>)

  /** The body of a block of type 0, 1 or 2. */
  ghost function BlockBody(page: seq<byte>, cap: nat, st: Streams, tokens: seq<Token>, kind: BlockType): (r: Result<Body>)
    requires Ready(st) && st.cursor <= WordCount(page) && Settled(tokens) && OutLen(tokens) <= cap
    ensures r.Ok? ==> AtBlock(page, r.value.st) && Remaining(page, r.value.st) <= Remaining(page, st)
    ensures r.Ok? ==> Settled(r.value.tokens) && OutLen(tokens) <= OutLen(r.value.tokens) <= cap
    ensures r.Refused? ==> PageReject(r.why)
  {
    match kind
    case Stored => StoredBlock(page, cap, st, tokens)
    case Static => CodedBlock(page, cap, st, tokens, StaticCodes())
    case DynamicHuffman =>
      var d := ReadDynamic(page, st);
      if d.Refused? then Refused(d.why) else CodedBlock(page, cap, d.value.st, tokens, d.value.codes)
  }

  ghost function CodedBlock(page: seq<byte>, cap: nat, st: Streams, tokens: seq<Token>, c: Codes): (r: Result<Body>)
    requires CodesOk(c) && Ready(st) && st.cursor <= WordCount(page) && Settled(tokens) && OutLen(tokens) <= cap
    ensures r.Ok? ==> AtBlock(page, r.value.st) && Remaining(page, r.value.st) <= Remaining(page, st)
    ensures r.Ok? ==> Settled(r.value.tokens) && OutLen(tokens) <= OutLen(r.value.tokens) <= cap
    ensures r.Refused? ==> PageReject(r.why)
  {
    var p := Symbols(page, c, cap, Parse(st, tokens, Repeat(Idle, NUM_STREAMS)), 0);
    if p.Refused? then Refused(p.why) else Ok(Body(p.value.st, p.value.tokens))
  }

  datatype Header = Header(final: bool, kind: BlockType, st: Streams)

  lemma TwoBits(a: bool, b: bool)
    ensures Low([a, b]) == (if a then 1 else 0) + (if b then 2 else 0)
  {
    assert [a, b][1..] == [b] && [b][1..] == [];
    assert Low([b]) == (if b then 1 else 0) + 2 * Low([]);
  }

  /** Three bits of lane 0: the final mark, then the type, low bit first. */
  function ReadHeader(page: seq<byte>, st: Streams): (r: Result<Header>)
    requires AtBlock(page, st)
    ensures r.Ok? ==> Ready(r.value.st) && r.value.st.cursor <= WordCount(page)
    ensures r.Ok? ==> Remaining(page, r.value.st) == Remaining(page, st) - 3
    ensures r.Refused? ==> PageReject(r.why)
  {
    var bits := st.lanes[0];
    assert bits[1..3] == [bits[1], bits[2]];
    TwoBits(bits[1], bits[2]);
    var kind := Low(bits[1..3]);
    ConsumeSpends(page, st, 0, 3);
    var after := Refill(page, Consume(st, 0, 3), 0);
    if after.Refused? then Refused(after.why)
    else
      RefillKeeps(page, Consume(st, 0, 3), 0);
      if kind == 3 then Refused(BlockTypeReserved)
      else Ok(Header(bits[0], if kind == 0 then Stored else if kind == 1 then Static else DynamicHuffman, after.value))
  }

  datatype Progress = Progress(final: bool, body: Body, blocks: seq<Block>)

  /** One block: its header, its body, and what it adds to the record. */
  ghost function OneBlock(page: seq<byte>, cap: nat, body: Body, blocks: seq<Block>): (r: Result<Progress>)
    requires AtBlock(page, body.st) && Settled(body.tokens) && BytesOf(blocks) == OutLen(body.tokens) <= cap
    ensures r.Ok? ==>
              && AtBlock(page, r.value.body.st) && Settled(r.value.body.tokens)
              && BytesOf(r.value.blocks) == OutLen(r.value.body.tokens) <= cap
              && Remaining(page, r.value.body.st) + 3 <= Remaining(page, body.st)
    ensures r.Refused? ==> PageReject(r.why)
  {
    var h := ReadHeader(page, body.st);
    if h.Refused? then Refused(h.why)
    else
      var next := BlockBody(page, cap, h.value.st, body.tokens, h.value.kind);
      if next.Refused? then Refused(next.why)
      else
        var blocks' := blocks + [Block(h.value.kind, OutLen(next.value.tokens) - OutLen(body.tokens))];
        assert blocks'[..|blocks|] == blocks;
        Ok(Progress(h.value.final, next.value, blocks'))
  }

  /** The blocks from here on, to the one marked final. */
  ghost function Blocks(page: seq<byte>, cap: nat, body: Body, blocks: seq<Block>): (r: Result<Page>)
    requires AtBlock(page, body.st) && Settled(body.tokens) && BytesOf(blocks) == OutLen(body.tokens) <= cap
    ensures r.Ok? ==> Settled(r.value.tokens) && BytesOf(r.value.blocks) == OutLen(r.value.tokens) <= cap
    ensures r.Refused? ==> PageReject(r.why)
    decreases Remaining(page, body.st)
  {
    var next := OneBlock(page, cap, body, blocks);
    if next.Refused? then Refused(next.why)
    else if next.value.final then Ok(Page(next.value.body.tokens, next.value.blocks))
    else Blocks(page, cap, next.value.body, next.value.blocks)
  }

  /** How many blocks are read before the reading ends, one way or the other. Every
      block but a refused one spends three bits of the page. */
  ghost function BlocksRead(page: seq<byte>, cap: nat, body: Body, blocks: seq<Block>): (n: nat)
    requires AtBlock(page, body.st) && Settled(body.tokens) && BytesOf(blocks) == OutLen(body.tokens) <= cap
    ensures n >= 1 && 3 * (n - 1) <= Remaining(page, body.st)
    decreases Remaining(page, body.st)
  {
    var next := OneBlock(page, cap, body, blocks);
    if next.Ok? && !next.value.final then 1 + BlocksRead(page, cap, next.value.body, next.value.blocks) else 1
  }

  /** The same for a whole page; a page refused before its first block reads none. */
  ghost function PageBlocks(page: seq<byte>, cap: nat): (n: nat)
    ensures Primed(page).Ok? ==> 3 * (n - 1) <= Remaining(page, Primed(page).value)
    ensures Primed(page).Refused? ==> n == 0
  {
    var st := Primed(page);
    if st.Refused? then 0
    else
      PrimedConserves(page);
      BlocksRead(page, cap, Body(st.value, []), [])
  }

  /** The whole page, for a tile of `cap` bytes. */
  ghost function ReadPage(page: seq<byte>, cap: nat): (r: Result<Page>)
    ensures r.Ok? ==> Settled(r.value.tokens) && BytesOf(r.value.blocks) == OutLen(r.value.tokens) <= cap
    ensures r.Refused? ==> PageReject(r.why)
  {
    var st := Primed(page);
    if st.Refused? then Refused(st.why)
    else
      PrimedConserves(page);
      Blocks(page, cap, Body(st.value, []), [])
  }
}
