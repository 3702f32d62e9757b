/** Writing the symbols of a coded block: one lane after another, a match's
    distance a round behind its length, and the drain behind the end of the
    block. Reading gives back the tokens that were written. */
module BlockWriter {
  import opened Bits
  import opened CanonicalCode
  import opened Schedule
  import opened HuffTable
  import opened Lz77
  import opened PageSpec
  import opened PageDecode
  import opened PageTheorems
  import opened PageWriter
  import opened CodeWriter

  // ----- the pieces of a block -----

  /** A literal, or a match as its symbols and the numbers behind them. */
  datatype Piece = Lit(b: byte) | Copy(index: nat, more: nat, sym: nat, far: nat)

  predicate Known(p: Piece) {
    p.Copy? ==> p.index < 31 && p.sym < NUM_DIST_SYMS
  }

  function TokenOf(p: Piece): (t: Token)
    requires Known(p)
    ensures !t.Reserved? && (t.Match? <==> p.Copy?)
  {
    match p
    case Lit(b) => Literal(b)
    case Copy(index, more, sym, far) => Match(LengthBase(index) + more, DistBase(sym) + far)
  }

  predicate AllKnown(w: seq<Piece>) {
    forall i :: 0 <= i < |w| ==> Known(w[i])
  }

  function Tokens(w: seq<Piece>): (tokens: seq<Token>)
    requires AllKnown(w)
    ensures |tokens| == |w| && forall i :: 0 <= i < |w| ==> tokens[i] == TokenOf(w[i])
  {
    seq(|w|, i requires 0 <= i < |w| && AllKnown(w) => TokenOf(w[i]))
  }

  /** The codes have a codeword for every symbol of the piece, and its numbers fit
      their fields. */
  ghost predicate PieceWritable(c: Codes, p: Piece) {
    && Known(p)
    && match p
       case Lit(b) => (b as nat) < |c.litlen| && c.litlen[b] >= 1
       case Copy(index, more, sym, far) =>
         && FIRST_LENGTH_SYM + index < |c.litlen| && c.litlen[FIRST_LENGTH_SYM + index] >= 1 && more < Pow2(LengthExtra(index))
         && sym < |c.dist| && c.dist[sym] >= 1 && far < Pow2(DistExtra(sym))
  }

  ghost predicate Writable(c: Codes, w: seq<Piece>) {
    && |c.litlen| > END_OF_BLOCK && c.litlen[END_OF_BLOCK] >= 1
    && forall i :: 0 <= i < |w| ==> PieceWritable(c, w[i])
  }

  ghost function SymbolBits(c: Codes, p: Piece): seq<bool>
    requires PieceWritable(c, p)
  {
    match p
    case Lit(b) => Codeword(c.litlen, b)
    case Copy(index, more, _, _) => Codeword(c.litlen, FIRST_LENGTH_SYM + index) + BitsOf(more, LengthExtra(index))
  }

  ghost function DistanceBits(c: Codes, p: Piece): seq<bool>
    requires PieceWritable(c, p) && p.Copy?
  {
    Codeword(c.dist, p.sym) + BitsOf(p.far, DistExtra(p.sym))
  }

  ghost function EndBits(c: Codes): seq<bool>
    requires |c.litlen| > END_OF_BLOCK && c.litlen[END_OF_BLOCK] >= 1
  {
    Codeword(c.litlen, END_OF_BLOCK)
  }

  lemma SymbolIsTold(c: Codes, p: Piece, bits: seq<bool>)
    requires CodesOk(c) && PieceWritable(c, p) && |bits| >= LOW_WATERMARK_BITS && SymbolBits(c, p) <= bits
    ensures ReadLitLen(c.litlen, bits)
         == Ok(Reading(if p.Lit? then Byte(p.b) else Length(LengthBase(p.index) + p.more), |SymbolBits(c, p)|))
    ensures |SymbolBits(c, p)| <= 31
  {
    hide Symbol, Codeword, BitsOf, Low, Pow2, IsCode, LengthBase, LengthExtra;
    var sym := if p.Lit? then p.b as nat else FIRST_LENGTH_SYM + p.index;
    var w := Codeword(c.litlen, sym);
    assert w <= bits;
    SymbolIsRead(c.litlen, MAX_CODE_LEN, sym, bits);
    if p.Copy? {
      var extra := BitsOf(p.more, LengthExtra(p.index));
      FrontOf(w + extra, bits, |w|, |w| + |extra|);
      assert (w + extra)[|w|..|w| + |extra|] == extra;
      FieldOf(bits, |w|, p.more, LengthExtra(p.index));
    }
  }

  lemma DistanceIsTold(c: Codes, p: Piece, bits: seq<bool>)
    requires CodesOk(c) && PieceWritable(c, p) && p.Copy? && |bits| >= LOW_WATERMARK_BITS && DistanceBits(c, p) <= bits
    ensures ReadDist(c.dist, bits) == Ok(Reading(DistBase(p.sym) + p.far, |DistanceBits(c, p)|)) && |DistanceBits(c, p)| <= 29
  {
    hide Symbol, Codeword, BitsOf, Low, Pow2, IsCode, DistBase, DistExtra;
    var w, extra := Codeword(c.dist, p.sym), BitsOf(p.far, DistExtra(p.sym));
    assert w <= bits;
    SymbolIsRead(c.dist, MAX_CODE_LEN, p.sym, bits);
    FrontOf(w + extra, bits, |w|, |w| + |extra|);
    assert (w + extra)[|w|..|w| + |extra|] == extra;
    FieldOf(bits, |w|, p.far, DistExtra(p.sym));
  }

  lemma EndIsTold(c: Codes, bits: seq<bool>)
    requires CodesOk(c) && |c.litlen| > END_OF_BLOCK && c.litlen[END_OF_BLOCK] >= 1
    requires |bits| >= LOW_WATERMARK_BITS && EndBits(c) <= bits
    ensures ReadLitLen(c.litlen, bits) == Ok(Reading(EndOfBlock, |EndBits(c)|)) && |EndBits(c)| <= 15
  {
    hide Symbol, Codeword, BitsOf, Low, Pow2, IsCode;
    SymbolIsRead(c.litlen, MAX_CODE_LEN, END_OF_BLOCK, bits);
  }

  /** No item of a piece is wider than what a lane holds. */
  lemma PieceWidths(c: Codes, p: Piece)
    requires CodesOk(c) && PieceWritable(c, p)
    ensures |SymbolBits(c, p)| <= 31 && (p.Copy? ==> |DistanceBits(c, p)| <= 29)
  {
    hide Codeword, BitsOf, Pow2;
    WordWidth(c.litlen, if p.Lit? then p.b as nat else FIRST_LENGTH_SYM + p.index);
    if p.Copy? { WordWidth(c.dist, p.sym); }
  }

  lemma WordWidth(lens: seq<nat>, sym: nat)
    requires IsCode(lens, MAX_CODE_LEN) && sym < |lens| && lens[sym] >= 1
    ensures |Codeword(lens, sym)| == lens[sym] <= MAX_CODE_LEN
  {
    hide Codeword;
    CodewordLength(lens, sym);
  }

  // ----- the script of a block -----

  /** Every lane that owes, owes the distance of one of the pieces. */
  predicate Owed(w: seq<Piece>, n0: nat, pend: seq<Pending>) {
    && |pend| == NUM_STREAMS
    && forall l :: 0 <= l < NUM_STREAMS && pend[l].Owes? ==> n0 <= pend[l].token < n0 + |w| && w[pend[l].token - n0].Copy?
  }

  /** What `n` lanes from lane `l` on still read once the block has ended. */
  ghost function DrainItems(c: Codes, w: seq<Piece>, n0: nat, pend: seq<Pending>, l: nat, n: nat): seq<Item>
    requires Writable(c, w) && Owed(w, n0, pend) && l < NUM_STREAMS
    decreases n
  {
    if n == 0 then []
    else
      [Item(l, if pend[l].Owes? then DistanceBits(c, w[pend[l].token - n0]) else [], true)]
      + DrainItems(c, w, n0, pend[l := Idle], NextLane(l), n - 1)
  }

  /** What lane `l` writes when `i` pieces have been begun. */
  ghost function CodedItem(c: Codes, w: seq<Piece>, n0: nat, pend: seq<Pending>, i: nat, l: nat): Item
    requires Writable(c, w) && Owed(w, n0, pend) && l < NUM_STREAMS && i <= |w|
  {
    Item(l,
         if pend[l].Owes? then DistanceBits(c, w[pend[l].token - n0])
         else if i < |w| then SymbolBits(c, w[i])
         else EndBits(c),
         true)
  }

  /** What is owed behind it, unless it ended the block. */
  function OwedNext(w: seq<Piece>, n0: nat, pend: seq<Pending>, i: nat, l: nat): (next: seq<Pending>)
    requires Owed(w, n0, pend) && l < NUM_STREAMS && i <= |w| && (pend[l].Owes? || i < |w|)
    ensures Owed(w, n0, next) && PendCount(next) <= PendCount(pend) + 1 && (pend[l].Owes? ==> PendCount(next) < PendCount(pend))
  {
    PendUpdate(pend, l, Idle);
    PendUpdate(pend, l, Owes(n0 + i));
    if pend[l].Owes? then pend[l := Idle] else if w[i].Copy? then pend[l := Owes(n0 + i)] else pend
  }

  /** The pieces from the `i`th on, lane after lane from lane `l`. A lane that owes
      a distance writes it; any other begins the next piece. `n0` tokens lie before
      the block. */
  ghost function CodedItems(c: Codes, w: seq<Piece>, n0: nat, pend: seq<Pending>, i: nat, l: nat): seq<Item>
    requires Writable(c, w) && Owed(w, n0, pend) && l < NUM_STREAMS && i <= |w|
    decreases 2 * (|w| - i) + PendCount(pend)
  {
    if pend[l].Owes? then
      [CodedItem(c, w, n0, pend, i, l)] + CodedItems(c, w, n0, OwedNext(w, n0, pend, i, l), i, NextLane(l))
    else if i < |w| then
      [CodedItem(c, w, n0, pend, i, l)] + CodedItems(c, w, n0, OwedNext(w, n0, pend, i, l), i + 1, NextLane(l))
    else [CodedItem(c, w, n0, pend, i, l)] + DrainItems(c, w, n0, pend, NextLane(l), NUM_STREAMS - 1)
  }

  // ----- what the reader has seen of it -----

  /** What a piece looks like while its distance is still owed, or once it is paid. */
  predicate ShowsPiece(t: Token, p: Piece) {
    Known(p) && (t == TokenOf(p) || (p.Copy? && t.Reserved? && t.len == TokenOf(p).len))
  }

  /** The reader has the tokens before the block and the first `i` pieces. */
  predicate Shows(tokens: seq<Token>, prior: seq<Token>, w: seq<Piece>, i: nat) {
    && AllKnown(w) && i <= |w| && |tokens| == |prior| + i && Settled(prior)
    && (forall j :: 0 <= j < |prior| ==> tokens[j] == prior[j])
    && forall j :: |prior| <= j < |tokens| ==> ShowsPiece(tokens[j], w[j - |prior|])
  }

  /** Everything the block comes to. */
  function Target(prior: seq<Token>, w: seq<Piece>): seq<Token>
    requires AllKnown(w)
  {
    prior + Tokens(w)
  }

  /** The lengths are already those of the whole. */
  lemma ShowsLengths(tokens: seq<Token>, prior: seq<Token>, w: seq<Piece>, i: nat)
    requires Shows(tokens, prior, w, i)
    ensures OutLen(tokens) == Start(Target(prior, w), |tokens|)
    ensures forall j :: 0 <= j < |tokens| ==> Start(tokens, j) == Start(Target(prior, w), j)
  {
    hide OutLen;
    var goal := Target(prior, w);
    var front := goal[..|tokens|];
    SameLengths(tokens, front);
    forall j | 0 <= j < |tokens| ensures Start(tokens, j) == Start(goal, j) {
      PrefixStart(goal, |tokens|, j);
    }
  }

  lemma ShowsPaid(tokens: seq<Token>, prior: seq<Token>, w: seq<Piece>, i: nat, j: nat)
    requires Shows(tokens, prior, w, i) && |prior| <= j < |tokens| && w[j - |prior|].Copy?
    ensures Shows(tokens[j := TokenOf(w[j - |prior|])], prior, w, i)
  {
  }

  lemma ShowsMore(tokens: seq<Token>, prior: seq<Token>, w: seq<Piece>, i: nat, t: Token)
    requires Shows(tokens, prior, w, i) && i < |w| && ShowsPiece(t, w[i])
    ensures Shows(tokens + [t], prior, w, i + 1)
  {
  }

  lemma ShowsAll(tokens: seq<Token>, prior: seq<Token>, w: seq<Piece>)
    requires Shows(tokens, prior, w, |w|) && Settled(tokens)
    ensures tokens == Target(prior, w)
  {
    assert forall j :: |prior| <= j < |tokens| ==> tokens[j] == TokenOf(w[j - |prior|]);
  }

  // ----- reading the script -----

  /** The block can be written and its tokens executed, within the capacity. */
  ghost predicate BlockFits(c: Codes, prior: seq<Token>, w: seq<Piece>, cap: nat) {
    CodesOk(c) && Writable(c, w) && AllKnown(w) && WellFormed(Target(prior, w)) && OutLen(Target(prior, w)) <= cap
  }

  /** The piece a reservation shows, which its distance will settle. */
  lemma OwedFits(c: Codes, cap: nat, tokens: seq<Token>, j: nat, prior: seq<Token>, w: seq<Piece>, i: nat)
    requires BlockFits(c, prior, w, cap) && Shows(tokens, prior, w, i) && j < |tokens| && tokens[j].Reserved?
    ensures |prior| <= j && j - |prior| < |w| && w[j - |prior|].Copy? && PieceWritable(c, w[j - |prior|])
    ensures tokens[j].len == TokenOf(w[j - |prior|]).len && TokenOf(w[j - |prior|]).dist <= Start(tokens, j)
  {
    hide OutLen, CodesOk, Shows, BlockFits, Target, PieceWritable, TokenOf;
    ShowsSays(tokens, prior, w, i);
    FitsSays(c, prior, w, cap);
    ShowsLengths(tokens, prior, w, i);
    PieceReaches(c, cap, prior, w, j);
  }

  lemma LinkedOwes(tokens: seq<Token>, pend: seq<Pending>, l: nat)
    requires Linked(tokens, pend) && l < NUM_STREAMS && pend[l].Owes?
    ensures |pend| == NUM_STREAMS && pend[l].token < |tokens| && tokens[pend[l].token].Reserved?
  {
  }

  lemma PieceReaches(c: Codes, cap: nat, prior: seq<Token>, w: seq<Piece>, j: nat)
    requires BlockFits(c, prior, w, cap) && |prior| <= j < |prior| + |w| && w[j - |prior|].Copy?
    ensures TokenOf(w[j - |prior|]).dist <= Start(Target(prior, w), j)
  {
    hide OutLen, CodesOk, Writable;
    assert Target(prior, w)[j] == TokenOf(w[j - |prior|]);
  }

  lemma RetireWith(c: Codes, p: Parse, l: nat, d: Reading<nat>)
    requires CodesOk(c) && Ready(p.st) && Linked(p.tokens, p.pend) && l < NUM_STREAMS && p.pend[l].Owes?
    requires ReadDist(c.dist, p.st.lanes[l]) == Ok(d) && d.what <= Start(p.tokens, p.pend[l].token)
    ensures Retire(c, p, l)
         == Ok(Parse(Consume(p.st, l, d.width),
                     p.tokens[p.pend[l].token := Match(p.tokens[p.pend[l].token].len, d.what)],
                     p.pend[l := Idle]))
  {
    hide ReadDist, CodesOk, OutLen, PendCount, Total;
  }

  /** A lane that owes pays with the distance written for it. */
  lemma PayReads(c: Codes, cap: nat, p: Parse, l: nat, prior: seq<Token>, w: seq<Piece>, i: nat) returns (q: Parse)
    requires BlockFits(c, prior, w, cap) && Ready(p.st) && Linked(p.tokens, p.pend) && l < NUM_STREAMS && p.pend[l].Owes?
    requires Shows(p.tokens, prior, w, i) && Owed(w, |prior|, p.pend) && Writable(c, w)
    requires DistanceBits(c, w[p.pend[l].token - |prior|]) <= p.st.lanes[l]
    ensures var piece := w[p.pend[l].token - |prior|];
            && |DistanceBits(c, piece)| <= 29
            && q.st == Consume(p.st, l, |DistanceBits(c, piece)|) && q.pend == p.pend[l := Idle]
    ensures Retire(c, p, l) == Ok(q) && Shows(q.tokens, prior, w, i)
  {
    hide ReadDist, Retire, DistanceBits, OutLen, Shows, Linked, BlockFits, Target, PieceWritable, DistBase;
    LinkedOwes(p.tokens, p.pend, l);
    var j := p.pend[l].token;
    OwedFits(c, cap, p.tokens, j, prior, w, i);
    FitsSays(c, prior, w, cap);
    var piece := w[j - |prior|];
    DistanceIsTold(c, piece, p.st.lanes[l]);
    RetireWith(c, p, l, Reading(TokenOf(piece).dist, |DistanceBits(c, piece)|));
    q := Parse(Consume(p.st, l, |DistanceBits(c, piece)|), p.tokens[j := TokenOf(piece)], p.pend[l := Idle]);
    ShowsPaid(p.tokens, prior, w, i, j);
  }

  lemma ShowsSays(tokens: seq<Token>, prior: seq<Token>, w: seq<Piece>, i: nat)
    requires Shows(tokens, prior, w, i)
    ensures AllKnown(w) && i <= |w| && |tokens| == |prior| + i && Settled(prior)
    ensures forall j :: 0 <= j < |tokens| && tokens[j].Reserved? ==>
              |prior| <= j && w[j - |prior|].Copy? && tokens[j].len == TokenOf(w[j - |prior|]).len
  {
  }

  /** A lane that owes nothing begins the next piece. */
  lemma PieceReads(c: Codes, cap: nat, p: Parse, l: nat, prior: seq<Token>, w: seq<Piece>, i: nat) returns (q: Parse)
    requires BlockFits(c, prior, w, cap) && Ready(p.st) && Linked(p.tokens, p.pend) && OutLen(p.tokens) <= cap
    requires l < NUM_STREAMS && p.pend[l].Idle? && i < |w| && Shows(p.tokens, prior, w, i)
    requires SymbolBits(c, w[i]) <= p.st.lanes[l]
    ensures |SymbolBits(c, w[i])| <= 31 && q.st == Consume(p.st, l, |SymbolBits(c, w[i])|)
    ensures q.pend == if w[i].Copy? then p.pend[l := Owes(|prior| + i)] else p.pend
    ensures ReadNext(c, cap, p, l) == Ok(More(q)) && Shows(q.tokens, prior, w, i + 1)
  {
    hide ReadLitLen, ReadNext, SymbolBits, OutLen, CodesOk, Shows, Linked, BlockFits, Target, PieceWritable, LengthBase;
    FitsSays(c, prior, w, cap);
    ShowsSays(p.tokens, prior, w, i);
    PendShape(p.tokens, p.pend);
    SymbolIsTold(c, w[i], p.st.lanes[l]);
    ShowsLengths(p.tokens, prior, w, i);
    PieceHasRoom(c, cap, prior, w, i);
    var t := if w[i].Lit? then Literal(w[i].b) else Reserved(TokenOf(w[i]).len, l);
    var what := if w[i].Lit? then Byte(w[i].b) else Length(TokenOf(w[i]).len);
    ReadNextWith(c, cap, p, l, Reading(what, |SymbolBits(c, w[i])|));
    q := Parse(Consume(p.st, l, |SymbolBits(c, w[i])|), p.tokens + [t], if w[i].Copy? then p.pend[l := Owes(|p.tokens|)] else p.pend);
    ShowsMore(p.tokens, prior, w, i, t);
  }

  lemma PieceHasRoom(c: Codes, cap: nat, prior: seq<Token>, w: seq<Piece>, i: nat)
    requires BlockFits(c, prior, w, cap) && i < |w|
    ensures Start(Target(prior, w), |prior| + i) + TokenOf(w[i]).Length() <= cap
  {
    hide OutLen, CodesOk, Writable, WellFormed;
    assert Target(prior, w)[|prior| + i] == TokenOf(w[i]);
    StartFits(Target(prior, w), |prior| + i);
  }

  lemma ReadNextWith(c: Codes, cap: nat, p: Parse, l: nat, r: Reading<LitLen>)
    requires CodesOk(c) && Ready(p.st) && Linked(p.tokens, p.pend) && l < NUM_STREAMS && p.pend[l].Idle? && OutLen(p.tokens) <= cap
    requires ReadLitLen(c.litlen, p.st.lanes[l]) == Ok(r) && r.width <= |p.st.lanes[l]|
    ensures ReadNext(c, cap, p, l)
         == match r.what
            case Byte(b) =>
              if OutLen(p.tokens) >= cap then Refused(LiteralPastCap)
              else Ok(More(Parse(Consume(p.st, l, r.width), p.tokens + [Literal(b)], p.pend)))
            case Length(len) =>
              if len > cap - OutLen(p.tokens) then Refused(MatchPastCap)
              else Ok(More(Parse(Consume(p.st, l, r.width), p.tokens + [Reserved(len, l)], p.pend[l := Owes(|p.tokens|)])))
            case EndOfBlock => Ok(Ended(p.(st := Consume(p.st, l, r.width))))
  {
    hide ReadLitLen, CodesOk, OutLen, PendCount, Total;
  }

  lemma PendShape(tokens: seq<Token>, pend: seq<Pending>)
    requires Linked(tokens, pend)
    ensures |pend| == NUM_STREAMS
  {
  }

  lemma EndReads(c: Codes, cap: nat, p: Parse, l: nat) returns (q: Parse)
    requires CodesOk(c) && |c.litlen| > END_OF_BLOCK && c.litlen[END_OF_BLOCK] >= 1
    requires Ready(p.st) && Linked(p.tokens, p.pend) && OutLen(p.tokens) <= cap && l < NUM_STREAMS && p.pend[l].Idle?
    requires EndBits(c) <= p.st.lanes[l]
    ensures |EndBits(c)| <= 15 && q == p.(st := Consume(p.st, l, |EndBits(c)|)) && ReadNext(c, cap, p, l) == Ok(Ended(q))
  {
    hide ReadLitLen, EndBits, OutLen, CodesOk, PendCount, ReadFrom;
    EndIsTold(c, p.st.lanes[l]);
    q := p.(st := Consume(p.st, l, |EndBits(c)|));
  }

  /** One lane of the drain. */
  lemma DrainTurn(page: seq<byte>, c: Codes, cap: nat, p: Parse, l: nat, n: nat, prior: seq<Token>, w: seq<Piece>) returns (next: Parse)
    requires BlockFits(c, prior, w, cap) && Live(page, cap, p) && l < NUM_STREAMS && 1 <= n < NUM_STREAMS && OnlyNextOwe(p.pend, l, n)
    requires Shows(p.tokens, prior, w, |w|) && Owed(w, |prior|, p.pend) && Writable(c, w)
    requires Feed(page, p.st, DrainItems(c, w, |prior|, p.pend, l, n)).Ok?
    ensures Live(page, cap, next) && next.pend == p.pend[l := Idle] && Owed(w, |prior|, next.pend) && OnlyNextOwe(next.pend, NextLane(l), n - 1)
    ensures Shows(next.tokens, prior, w, |w|) && Drain(page, c, cap, p, l, n) == Drain(page, c, cap, next, NextLane(l), n - 1)
    ensures Feed(page, p.st, DrainItems(c, w, |prior|, p.pend, l, n))
         == Feed(page, next.st, DrainItems(c, w, |prior|, next.pend, NextLane(l), n - 1))
  {
    hide Feed, Drain, DrainStep, Retire, Shows, DistanceBits, BlockFits, Refill, Live, Linked, OutLen, Total, CodesOk, PieceWritable, OnlyNextOwe, PendCount;
    FitsSays(c, prior, w, cap);
    LiveFacts(page, cap, p);
    var rest := DrainItems(c, w, |prior|, p.pend[l := Idle], NextLane(l), n - 1);
    var q := p;
    if p.pend[l].Owes? {
      PieceWidths(c, w[p.pend[l].token - |prior|]);
      ReadyItem(page, p.st, l, DistanceBits(c, w[p.pend[l].token - |prior|]), rest);
      q := PayReads(c, cap, p, l, prior, w, |w|);
    } else {
      ReadyItem(page, p.st, l, [], rest);
      ConsumeNone(p.st, l);
      assert p.pend[l := Idle] == p.pend;
    }
    DrainStepDone(page, c, cap, p, l, q);
    DrainUnfold(page, c, cap, p, l, n);
    next := q.(st := Refill(page, q.st, l).value);
  }

  /** The drain pays what is owed and nothing else. */
  lemma {:induction false} DrainReads(page: seq<byte>, c: Codes, cap: nat, p: Parse, l: nat, n: nat, prior: seq<Token>, w: seq<Piece>)
    requires BlockFits(c, prior, w, cap) && Live(page, cap, p) && l < NUM_STREAMS && n < NUM_STREAMS && OnlyNextOwe(p.pend, l, n)
    requires Shows(p.tokens, prior, w, |w|) && Owed(w, |prior|, p.pend) && Writable(c, w) && AllKnown(w)
    requires Feed(page, p.st, DrainItems(c, w, |prior|, p.pend, l, n)).Ok?
    ensures var r := Drain(page, c, cap, p, l, n);
            r.Ok? && r.value.tokens == Target(prior, w) && r.value.st == Feed(page, p.st, DrainItems(c, w, |prior|, p.pend, l, n)).value
    decreases n
  {
    hide Feed, Drain, Shows, BlockFits, Live, Linked, OutLen, Total, CodesOk, Target, Writable, OnlyNextOwe, Ready, Settled, Owed, PendCount;
    FitsSays(c, prior, w, cap);
    LiveFacts(page, cap, p);
    if n == 0 {
      DrainEnds(page, c, cap, p, l);
      NothingFed(page, p.st);
      NoneOwed(p.tokens, p.pend, l);
      ShowsAll(p.tokens, prior, w);
    } else {
      var next := DrainTurn(page, c, cap, p, l, n, prior, w);
      DrainReads(page, c, cap, next, NextLane(l), n - 1, prior, w);
    }
  }

  lemma FitsSays(c: Codes, prior: seq<Token>, w: seq<Piece>, cap: nat)
    requires BlockFits(c, prior, w, cap)
    ensures CodesOk(c) && Writable(c, w) && AllKnown(w)
  {
  }

  lemma ConsumeNone(st: Streams, l: nat)
    requires l < |st.lanes|
    ensures Consume(st, l, 0) == st
  {
    assert st.lanes[l := st.lanes[l][0..]] == st.lanes;
  }

  lemma NoneOwed(tokens: seq<Token>, pend: seq<Pending>, l: nat)
    requires Linked(tokens, pend) && OnlyNextOwe(pend, l, 0) && l < NUM_STREAMS
    ensures Settled(tokens)
  {
  }

  /** A lane that owes, or begins a piece, takes one symbol step, and the rest of
      the script is for the streams it leaves. */
  lemma PieceTurn(page: seq<byte>, c: Codes, cap: nat, p: Parse, l: nat, prior: seq<Token>, w: seq<Piece>, i: nat)
    returns (next: Parse)
    requires BlockFits(c, prior, w, cap) && Live(page, cap, p) && l < NUM_STREAMS && Writable(c, w)
    requires Shows(p.tokens, prior, w, i) && i <= |w| && Owed(w, |prior|, p.pend) && (p.pend[l].Owes? || i < |w|)
    requires Feed(page, p.st, CodedItems(c, w, |prior|, p.pend, i, l)).Ok?
    ensures var i' := if p.pend[l].Owes? then i else i + 1;
            && Live(page, cap, next) && next.pend == OwedNext(w, |prior|, p.pend, i, l)
            && Shows(next.tokens, prior, w, i') && Symbols(page, c, cap, p, l) == Symbols(page, c, cap, next, NextLane(l))
            && Feed(page, p.st, CodedItems(c, w, |prior|, p.pend, i, l))
               == Feed(page, next.st, CodedItems(c, w, |prior|, next.pend, i', NextLane(l)))
  {
    hide Feed, Symbols, SymbolStep, Retire, ReadNext, Shows, DistanceBits, SymbolBits, EndBits, BlockFits, Refill, Live, Linked, OutLen, Total, CodesOk, Target, DrainItems, PieceWritable, PendCount;
    FitsSays(c, prior, w, cap);
    LiveFacts(page, cap, p);
    var it, i' := CodedItem(c, w, |prior|, p.pend, i, l), if p.pend[l].Owes? then i else i + 1;
    var pend' := OwedNext(w, |prior|, p.pend, i, l);
    PieceWidth(c, w, |prior|, p.pend, i, l);
    ReadyItem(page, p.st, l, it.bits, CodedItems(c, w, |prior|, pend', i', NextLane(l)));
    var q;
    if p.pend[l].Owes? {
      q := PayReads(c, cap, p, l, prior, w, i);
    } else {
      q := PieceReads(c, cap, p, l, prior, w, i);
    }
    SymbolStepDone(page, c, cap, p, l, q, false);
    SymbolsUnfold(page, c, cap, p, l);
    next := q.(st := Refill(page, q.st, l).value);
  }

  lemma PieceWidth(c: Codes, w: seq<Piece>, n0: nat, pend: seq<Pending>, i: nat, l: nat)
    requires CodesOk(c) && Writable(c, w) && Owed(w, n0, pend) && l < NUM_STREAMS && i <= |w|
    ensures |CodedItem(c, w, n0, pend, i, l).bits| <= 31
  {
    hide DistanceBits, SymbolBits, EndBits, CodesOk;
    if pend[l].Owes? { PieceWidths(c, w[pend[l].token - n0]); }
    else if i < |w| { PieceWidths(c, w[i]); }
    else { EndWidth(c); }
  }

  /** A coded block that is written is read back as the tokens it wrote. */
  lemma {:induction false} CodedReads(page: seq<byte>, c: Codes, cap: nat, p: Parse, l: nat, prior: seq<Token>, w: seq<Piece>, i: nat)
    requires BlockFits(c, prior, w, cap) && Live(page, cap, p) && l < NUM_STREAMS && Writable(c, w) && AllKnown(w)
    requires Shows(p.tokens, prior, w, i) && i <= |w| && Owed(w, |prior|, p.pend)
    requires Feed(page, p.st, CodedItems(c, w, |prior|, p.pend, i, l)).Ok?
    ensures var r := Symbols(page, c, cap, p, l);
            r.Ok? && r.value.tokens == Target(prior, w) && r.value.st == Feed(page, p.st, CodedItems(c, w, |prior|, p.pend, i, l)).value
    decreases 2 * (|w| - i) + PendCount(p.pend)
  {
    hide Feed, Symbols, Shows, BlockFits, Live, Linked, Total, CodesOk, Target, CodedItems, Writable, PendCount;
    LiveFacts(page, cap, p);
    if p.pend[l].Owes? {
      var next := PieceTurn(page, c, cap, p, l, prior, w, i);
      CodedReads(page, c, cap, next, NextLane(l), prior, w, i);
    } else if i < |w| {
      var next := PieceTurn(page, c, cap, p, l, prior, w, i);
      CodedReads(page, c, cap, next, NextLane(l), prior, w, i + 1);
    } else {
      EndTurn(page, c, cap, p, l, prior, w);
    }
  }

  /** The end of the block, and the drain behind it. */
  lemma EndTurn(page: seq<byte>, c: Codes, cap: nat, p: Parse, l: nat, prior: seq<Token>, w: seq<Piece>)
    requires BlockFits(c, prior, w, cap) && Live(page, cap, p) && l < NUM_STREAMS && Writable(c, w) && AllKnown(w)
    requires Shows(p.tokens, prior, w, |w|) && Owed(w, |prior|, p.pend) && p.pend[l].Idle?
    requires Feed(page, p.st, CodedItems(c, w, |prior|, p.pend, |w|, l)).Ok?
    ensures var r := Symbols(page, c, cap, p, l);
            && r.Ok? && r.value.tokens == Target(prior, w)
            && r.value.st == Feed(page, p.st, CodedItems(c, w, |prior|, p.pend, |w|, l)).value
  {
    hide Feed, Symbols, Drain, SymbolStep, ReadNext, Shows, EndBits, BlockFits, Refill, Live, Linked, OutLen, Total, CodesOk, Target, DrainItems, PieceWritable, PendCount;
    FitsSays(c, prior, w, cap);
    LiveFacts(page, cap, p);
    EndWidth(c);
    ReadyItem(page, p.st, l, EndBits(c), DrainItems(c, w, |prior|, p.pend, NextLane(l), NUM_STREAMS - 1));
    var q := EndReads(c, cap, p, l);
    SymbolStepDone(page, c, cap, p, l, q, true);
    SymbolsUnfold(page, c, cap, p, l);
    DrainReads(page, c, cap, q.(st := Refill(page, q.st, l).value), NextLane(l), NUM_STREAMS - 1, prior, w);
  }

  lemma EndWidth(c: Codes)
    requires CodesOk(c) && |c.litlen| > END_OF_BLOCK && c.litlen[END_OF_BLOCK] >= 1
    ensures |EndBits(c)| <= 15
  {
    WordWidth(c.litlen, END_OF_BLOCK);
  }
}
