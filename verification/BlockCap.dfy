/** Pages of empty blocks, and what the 64-bit block cap makes of a long one.

    Such a page reads only its first lane. It is zero but for one bit, and where
    in the lane's bits that one lies says which block is the final one. */
module BlockCap {
  import opened Bits
  import opened Schedule
  import opened Lz77
  import opened PageSpec
  import opened PageDecode

  /** The page word that lane 0 takes as its `j`-th, when no other lane takes any. */
  function LaneWord(j: nat): nat {
    if j == 0 then 0 else NUM_STREAMS - 1 + j
  }

  /** Where bit `m` of lane 0 lies in the page. */
  function MarkByte(m: nat): nat {
    4 * LaneWord(m / BITS_PER_PACKET) + m % BITS_PER_PACKET / 8
  }

  function OneBit(k: nat): (b: byte)
    requires k < 8
    ensures b == Pow2(k)
  {
    assert Pow2(7) == 128;
    if k == 0 then 1 else if k == 1 then 2 else if k == 2 then 4 else if k == 3 then 8
    else if k == 4 then 16 else if k == 5 then 32 else if k == 6 then 64 else 128
  }

  function MarkedByte(m: nat, i: int): byte {
    if i == MarkByte(m) then OneBit(m % 8) else 0
  }

  /** Every bit zero but bit `m` of lane 0; all zero if the page ends before it. */
  function MarkedPage(words: nat, m: nat): (page: seq<byte>)
    ensures |page| == 4 * words && WordCount(page) == words
  {
    seq<byte>(4 * words, i => MarkedByte(m, i))
  }

  lemma {:induction false} BitsOfOne(k: nat, n: nat)
    ensures forall i :: 0 <= i < n ==> BitsOf(Pow2(k), n)[i] == (i == k)
    ensures forall i :: 0 <= i < n ==> !BitsOf(0, n)[i]
  {
    if n > 0 {
      BitsOfOne(if k == 0 then 0 else k - 1, n - 1);
      if k == 0 {
        assert Pow2(0) / 2 == 0;
      } else {
        assert Pow2(k) / 2 == Pow2(k - 1) && Pow2(k) % 2 == 0;
      }
    }
  }

  /** Four bytes with one bit between them. */
  lemma WordOfBytes(q: nat, r: nat, b0: nat, b1: nat, b2: nat, b3: nat)
    requires q < 4 && r < 8
    requires b0 == (if q == 0 then Pow2(r) else 0) && b1 == (if q == 1 then Pow2(r) else 0)
    requires b2 == (if q == 2 then Pow2(r) else 0) && b3 == (if q == 3 then Pow2(r) else 0)
    ensures b0 + 0x100 * b1 + 0x1_0000 * b2 + 0x100_0000 * b3 == Pow2(8 * q + r)
  {
    hide Pow2;
    BytePowers();
    NoPower();
    Pow2Add(8 * q, r);
  }

  lemma NoPower()
    ensures Pow2(0) == 1
  {
  }

  /** The byte of a marked word that holds the mark. */
  lemma MarkedBytes(words: nat, m: nat, w: nat, q: nat)
    requires w < words && q < 4
    ensures MarkedPage(words, m)[4 * w + q]
         == if w == LaneWord(m / BITS_PER_PACKET) && q == m % BITS_PER_PACKET / 8 then Pow2(m % 8) else 0
  {
    hide Pow2, LaneWord;
    var at := m % BITS_PER_PACKET / 8;
    assert at < 4;
  }

  lemma MarkedValue(words: nat, m: nat, w: nat)
    requires w < words
    ensures WordAt(MarkedPage(words, m), w)
         == if w == LaneWord(m / BITS_PER_PACKET) then Pow2(m % BITS_PER_PACKET) else 0
  {
    hide Pow2, MarkedPage, WordAt, LaneWord;
    var page, q, r := MarkedPage(words, m), m % BITS_PER_PACKET / 8, m % 8;
    MarkedBytes(words, m, w, 0);
    MarkedBytes(words, m, w, 1);
    MarkedBytes(words, m, w, 2);
    MarkedBytes(words, m, w, 3);
    WordAtIsLittleEndian(page, w);
    assert m % BITS_PER_PACKET == 8 * q + r;
    if w == LaneWord(m / BITS_PER_PACKET) {
      WordOfBytes(q, r, page[4 * w], page[4 * w + 1], page[4 * w + 2], page[4 * w + 3]);
    }
  }

  /** The bits of a word of such a page. */
  lemma MarkedWord(words: nat, m: nat, w: nat)
    requires w < words
    ensures forall i :: 0 <= i < BITS_PER_PACKET ==> Word(MarkedPage(words, m), w)[i] == MarkedBit(m, w, i)
  {
    hide BitsOf, Pow2, MarkedPage, WordAt, LaneWord;
    MarkedValue(words, m, w);
    BitsOfOne(m % BITS_PER_PACKET, BITS_PER_PACKET);
  }

  predicate MarkedBit(m: nat, w: nat, i: int) {
    w == LaneWord(m / BITS_PER_PACKET) && i == m % BITS_PER_PACKET
  }

  /** What `k` empty blocks leave: lane 0 holds what it has been dealt past their
      19 bits each, and the other lanes what priming dealt them. */
  ghost predicate Ahead(page: seq<byte>, st: Streams, k: nat, m: nat) {
    && AtBlock(page, st) && NUM_STREAMS <= st.cursor <= NUM_STREAMS + k
    && BLOCK_BITS * k + |st.lanes[0]| == BITS_PER_PACKET * (st.cursor - (NUM_STREAMS - 1))
    && forall i :: 0 <= i < |st.lanes[0]| ==> st.lanes[0][i] == (BLOCK_BITS * k + i == m)
  }

  /** The header and the length of a stored block. */
  const BLOCK_BITS: nat := 3 + 16

  lemma BeginsAhead(words: nat, m: nat)
    requires words >= NUM_STREAMS
    ensures var page := MarkedPage(words, m);
            Primed(page).Ok? && Ahead(page, Primed(page).value, 0, m)
  {
    MarkedWord(words, m, 0);
    FirstWordPlace(m);
    PrimedConserves(MarkedPage(words, m));
  }

  lemma {:induction false} LowOfZeros(b: seq<bool>)
    requires forall i :: 0 <= i < |b| ==> !b[i]
    ensures Low(b) == 0
  {
    if b != [] { LowOfZeros(b[1..]); }
  }

  /** No bit of block `k` is set but perhaps its first. */
  predicate EmptyBlock(k: nat, m: nat) {
    m <= BLOCK_BITS * k || m >= BLOCK_BITS * (k + 1)
  }

  /** The header's word, if lane 0 is due one. */
  lemma HeaderAhead(words: nat, m: nat, st: Streams, k: nat)
    requires Ahead(MarkedPage(words, m), st, k, m) && NUM_STREAMS + k < words && EmptyBlock(k, m)
    ensures var page := MarkedPage(words, m);
            var h := ReadHeader(page, st);
            && h.Ok? && h.value.final == (m == BLOCK_BITS * k) && h.value.kind == Stored
            && |h.value.st.lanes| == NUM_STREAMS && (forall l :: 1 <= l < NUM_STREAMS ==> h.value.st.lanes[l] == st.lanes[l])
            && NUM_STREAMS <= h.value.st.cursor <= NUM_STREAMS + k + 1
            && BLOCK_BITS * k + 3 + |h.value.st.lanes[0]| == BITS_PER_PACKET * (h.value.st.cursor - (NUM_STREAMS - 1))
            && forall i :: 0 <= i < |h.value.st.lanes[0]| ==> h.value.st.lanes[0][i] == (BLOCK_BITS * k + 3 + i == m)
  {
    hide Word, MarkedPage, Total;
    var page := MarkedPage(words, m);
    var bits := st.lanes[0];
    assert bits[1..3] == [bits[1], bits[2]];
    TwoBits(bits[1], bits[2]);
    assert !bits[1] && !bits[2];
    PageWords(words, m);
    if |bits| - 3 < LOW_WATERMARK_BITS {
      MarkedWord(words, m, st.cursor);
      WordPlace(st.cursor, m);
    }
  }

  lemma PageWords(words: nat, m: nat)
    ensures WordCount(MarkedPage(words, m)) == words
  {
  }

  /** A word behind the primed ones is lane 0's, at the place its number says. */
  lemma WordPlace(w: nat, m: nat)
    requires w >= NUM_STREAMS
    ensures forall i :: 0 <= i < BITS_PER_PACKET ==>
              (MarkedBit(m, w, i) <==> BITS_PER_PACKET * (w - (NUM_STREAMS - 1)) + i == m)
  {
    var j := m / BITS_PER_PACKET;
    assert m == BITS_PER_PACKET * j + m % BITS_PER_PACKET;
  }

  lemma FirstWordPlace(m: nat)
    ensures forall i :: 0 <= i < BITS_PER_PACKET ==> (MarkedBit(m, 0, i) <==> i == m)
  {
    assert m == BITS_PER_PACKET * (m / BITS_PER_PACKET) + m % BITS_PER_PACKET;
  }

  /** One block of such a page: stored, empty, and final exactly if its first bit
      is the one that is set. */
  lemma OneEmptyBlock(words: nat, m: nat, cap: nat, st: Streams, k: nat, blocks: seq<Block>)
    requires Ahead(MarkedPage(words, m), st, k, m) && NUM_STREAMS + k < words && EmptyBlock(k, m)
    requires BytesOf(blocks) == 0
    ensures OutLen([]) == 0
    ensures var page := MarkedPage(words, m);
            var r := OneBlock(page, cap, Body(st, []), blocks);
            && r.Ok? && r.value.final == (m == BLOCK_BITS * k)
            && r.value.body.tokens == [] && Ahead(page, r.value.body.st, k + 1, m)
            && r.value.blocks == blocks + [Block(Stored, 0)]
  {
    hide MarkedPage, ReadHeader, StoredBlock, Ahead, Consume;
    var page := MarkedPage(words, m);
    AheadAtBlock(page, st, k, m);
    HeaderAhead(words, m, st, k);
    EmptyBody(page, cap, ReadHeader(page, st).value.st, k, m);
  }

  /** A length of zero, and nothing behind it. */
  lemma EmptyBody(page: seq<byte>, cap: nat, st: Streams, k: nat, m: nat)
    requires Ready(st) && NUM_STREAMS <= st.cursor <= WordCount(page) && st.cursor <= NUM_STREAMS + k + 1
    requires BLOCK_BITS * k + 3 + |st.lanes[0]| == BITS_PER_PACKET * (st.cursor - (NUM_STREAMS - 1))
    requires forall i :: 0 <= i < |st.lanes[0]| ==> st.lanes[0][i] == (BLOCK_BITS * k + 3 + i == m)
    requires EmptyBlock(k, m)
    ensures OutLen([]) == 0
    ensures StoredBlock(page, cap, st, []) == Ok(Body(Consume(st, 0, 16), [])) && Ahead(page, Consume(st, 0, 16), k + 1, m)
  {
    hide Total, BytesLeft;
    LowOfZeros(st.lanes[0][..16]);
  }

  lemma BytesOfEmpty(blocks: seq<Block>)
    requires BytesOf(blocks) == 0
    ensures BytesOf(blocks + [Block(Stored, 0)]) == 0
  {
    assert (blocks + [Block(Stored, 0)])[..|blocks|] == blocks;
  }

  /** From block `k` on, with block `f` the final one. */
  lemma {:induction false} EmptyBlocksFrom(words: nat, f: nat, cap: nat, st: Streams, k: nat, blocks: seq<Block>)
    requires Ahead(MarkedPage(words, BLOCK_BITS * f), st, k, BLOCK_BITS * f) && k <= f && NUM_STREAMS + f < words
    requires BytesOf(blocks) == OutLen([]) == 0
    ensures var page := MarkedPage(words, BLOCK_BITS * f);
            && BlocksRead(page, cap, Body(st, []), blocks) == f + 1 - k
            && Blocks(page, cap, Body(st, []), blocks) == Ok(Page([], blocks + Repeat(Block(Stored, 0), f + 1 - k)))
    decreases f - k
  {
    hide MarkedPage, OneBlock, Total, Ahead;
    var page, m := MarkedPage(words, BLOCK_BITS * f), BLOCK_BITS * f;
    AheadAtBlock(page, st, k, m);
    OneEmptyBlock(words, m, cap, st, k, blocks);
    BytesOfEmpty(blocks);
    var next := OneBlock(page, cap, Body(st, []), blocks).value;
    if k < f {
      EmptyBlocksFrom(words, f, cap, next.body.st, k + 1, next.blocks);
      assert next.blocks + Repeat(Block(Stored, 0), f - k) == blocks + Repeat(Block(Stored, 0), f + 1 - k);
    } else {
      assert next.blocks == blocks + Repeat(Block(Stored, 0), 1);
    }
  }

  lemma AheadAtBlock(page: seq<byte>, st: Streams, k: nat, m: nat)
    requires Ahead(page, st, k, m)
    ensures AtBlock(page, st)
  {
  }

  /** A page of `f` empty blocks and a final empty one is accepted, with an empty
      output, whatever the capacity. */
  lemma EmptyBlocksPage(words: nat, f: nat, cap: nat)
    requires NUM_STREAMS + f < words
    ensures var page := MarkedPage(words, BLOCK_BITS * f);
            && ReadPage(page, cap) == Ok(Page([], Repeat(Block(Stored, 0), f + 1)))
            && PageBlocks(page, cap) == f + 1
  {
    hide MarkedPage, Blocks, BlocksRead, Primed, Ahead;
    var page, m := MarkedPage(words, BLOCK_BITS * f), BLOCK_BITS * f;
    BeginsAhead(words, m);
    PrimedConserves(page);
    AheadAtBlock(page, Primed(page).value, 0, m);
    EmptyBlocksFrom(words, f, cap, Primed(page).value, 0, []);
    assert [] + Repeat(Block(Stored, 0), f + 1) == Repeat(Block(Stored, 0), f + 1);
  }

  /** While words remain, zeros are empty blocks that are never final. */
  lemma {:induction false} ZerosFrom(words: nat, m: nat, cap: nat, st: Streams, k: nat, j: nat, blocks: seq<Block>)
    requires Ahead(MarkedPage(words, m), st, k, m) && m >= BLOCK_BITS * words && NUM_STREAMS + k + j <= words
    requires BytesOf(blocks) == OutLen([]) == 0
    ensures BlocksRead(MarkedPage(words, m), cap, Body(st, []), blocks) >= j + 1
    decreases j
  {
    hide MarkedPage, OneBlock, Total, Ahead;
    var page := MarkedPage(words, m);
    AheadAtBlock(page, st, k, m);
    if j > 0 {
      OneEmptyBlock(words, m, cap, st, k, blocks);
      BytesOfEmpty(blocks);
      var next := OneBlock(page, cap, Body(st, []), blocks).value;
      ZerosFrom(words, m, cap, next.body.st, k + 1, j - 1, next.blocks);
    }
  }

  function Zeros(n: nat): (page: seq<byte>)
    ensures |page| == n
  {
    Repeat<byte>(0, n)
  }

  lemma NoMark(words: nat)
    ensures MarkedPage(words, BITS_PER_PACKET * words) == Zeros(4 * words)
  {
    hide OneBit;
    assert MarkByte(BITS_PER_PACKET * words) >= 4 * words;
  }

  /** A page of zeros has as many blocks as it has words behind the priming ones,
      and one more, at the least. */
  lemma ZeroPage(words: nat, cap: nat)
    requires words >= NUM_STREAMS
    ensures PageBlocks(Zeros(4 * words), cap) >= words - NUM_STREAMS + 1
  {
    hide BlocksRead, Primed, Ahead;
    var m := BITS_PER_PACKET * words;
    var page := MarkedPage(words, m);
    NoMark(words);
    BeginsAhead(words, m);
    PrimedConserves(page);
    AheadAtBlock(page, Primed(page).value, 0, m);
    ZerosFrom(words, m, cap, Primed(page).value, 0, words - NUM_STREAMS, []);
    assert PageBlocks(page, cap) >= words - NUM_STREAMS + 1;
  }

  /** The fewest words for which the block cap's product wraps: 21 times one more
      than this is 2^64 + 5. */
  const WRAPPING_WORDS: nat := 878416384462359600

  lemma CapWraps()
    ensures BlockFuel(WRAPPING_WORDS) == 5
    ensures forall page :: BlockFuelWraps(page) <==> WordCount(page) >= WRAPPING_WORDS
  {
    hide WordCount;
  }

  /** There the cap is five blocks. A page of five empty blocks and a final one is
      accepted by the reading, with an empty output, and has more blocks than the
      cap, so the decoder refuses it. A page of zeros passes the cap as well. */
  lemma WrappedCapRefuses(cap: nat)
    ensures forall page :: BlockFuelWraps(page) <==> WordCount(page) >= WRAPPING_WORDS
    ensures BlockFuel(WRAPPING_WORDS) == 5
    ensures var page := MarkedPage(WRAPPING_WORDS, BLOCK_BITS * 5);
            && |page| == 4 * WRAPPING_WORDS < UINT64_MAX && BlockFuelWraps(page)
            && ReadPage(page, cap) == Ok(Page([], Repeat(Block(Stored, 0), 6)))
            && PageBlocks(page, cap) == 6 > BlockFuel(WordCount(page))
    ensures var page := Zeros(4 * WRAPPING_WORDS);
            PageBlocks(page, cap) > BlockFuel(WordCount(page))
  {
    hide MarkedPage, ReadPage, PageBlocks, BlockFuel, BlockFuelWraps;
    CapWraps();
    PageWords(WRAPPING_WORDS, BLOCK_BITS * 5);
    EmptyBlocksPage(WRAPPING_WORDS, 5, cap);
    ZeroPage(WRAPPING_WORDS, cap);
  }
}
