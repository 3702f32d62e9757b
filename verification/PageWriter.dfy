/** Writing a page: what every lane is to read, in the order of the reads, dealt
    into words so that the refills bring it.

    A lane's refill is due at a point that depends only on how much the lanes have
    read, so the words can be dealt from the end of the script backwards. */
module PageWriter {
  import opened Bits
  import opened Schedule

  /** What a lane reads next, and whether it is then due a word. */
  datatype Item = Item(lane: nat, bits: seq<bool>, due: bool)

  // ----- a page that says what a script says -----

  /** Run a script against a page: every read must find the bits the script has
      for it, and every word due must be there. */
  function Feed(page: seq<byte>, st: Streams, items: seq<Item>): (r: Result<Streams>)
    requires |st.lanes| == NUM_STREAMS
    ensures r.Ok? ==> |r.value.lanes| == NUM_STREAMS
    decreases |items|
  {
    if items == [] then Ok(st)
    else
      var next := FeedOne(page, st, items[0]);
      if next.Refused? then next else Feed(page, next.value, items[1..])
  }

  function FeedOne(page: seq<byte>, st: Streams, it: Item): (r: Result<Streams>)
    requires |st.lanes| == NUM_STREAMS
    ensures r.Ok? ==> |r.value.lanes| == NUM_STREAMS
  {
    if it.lane >= NUM_STREAMS || !(it.bits <= st.lanes[it.lane]) then Refused(PopPastLane)
    else if it.due then Refill(page, Consume(st, it.lane, |it.bits|), it.lane)
    else Ok(Consume(st, it.lane, |it.bits|))
  }

  /** A script in two parts is fed in two parts. */
  lemma {:induction false} FeedJoin(page: seq<byte>, st: Streams, a: seq<Item>, b: seq<Item>)
    requires |st.lanes| == NUM_STREAMS
    ensures Feed(page, st, a + b) == if Feed(page, st, a).Refused? then Feed(page, st, a) else Feed(page, Feed(page, st, a).value, b)
    decreases |a|
  {
    hide FeedOne;
    if a == [] {
      assert a + b == b;
    } else {
      assert (a + b)[1..] == a[1..] + b;
      if FeedOne(page, st, a[0]).Ok? { FeedJoin(page, FeedOne(page, st, a[0]).value, a[1..], b); }
    }
  }

  lemma FeedUnfold(page: seq<byte>, st: Streams, it: Item, rest: seq<Item>)
    requires |st.lanes| == NUM_STREAMS && Feed(page, st, [it] + rest).Ok?
    ensures FeedOne(page, st, it).Ok? && Feed(page, st, [it] + rest) == Feed(page, FeedOne(page, st, it).value, rest)
  {
    assert ([it] + rest)[1..] == rest;
  }

  function BitsIn(items: seq<Item>): nat {
    if items == [] then 0 else |items[0].bits| + BitsIn(items[1..])
  }

  /** A script spends just the bits it reads. */
  lemma {:induction false} FeedSpends(page: seq<byte>, st: Streams, items: seq<Item>)
    requires |st.lanes| == NUM_STREAMS && st.cursor <= WordCount(page) && Feed(page, st, items).Ok?
    ensures var end := Feed(page, st, items).value;
            end.cursor <= WordCount(page) && Remaining(page, end) + BitsIn(items) == Remaining(page, st)
    decreases |items|
  {
    if items != [] {
      var it := items[0];
      var read := Consume(st, it.lane, |it.bits|);
      ConsumeSpends(page, st, it.lane, |it.bits|);
      if it.due { RefillKeeps(page, read, it.lane); }
      FeedSpends(page, FeedOne(page, st, it).value, items[1..]);
    }
  }

  // ----- dealing the words -----

  /** What a lane holds once an item has been read and its word taken. */
  function LeftBehind(left: nat, it: Item): nat
    requires |it.bits| <= left
  {
    left - |it.bits| + (if TakesWordAt(left, it) then BITS_PER_PACKET else 0)
  }

  predicate TakesWordAt(left: nat, it: Item)
    requires |it.bits| <= left
  {
    it.due && left - |it.bits| < LOW_WATERMARK_BITS
  }

  /** No lane is asked for more than it holds, whatever it holds. */
  predicate Schedulable(lefts: seq<nat>, items: seq<Item>)
    requires |lefts| == NUM_STREAMS
    decreases |items|
  {
    items == []
    || (items[0].lane < NUM_STREAMS && |items[0].bits| <= lefts[items[0].lane] && Schedulable(LeftsAfter(lefts, items[0]), items[1..]))
  }

  function LeftsAfter(lefts: seq<nat>, it: Item): (l: seq<nat>)
    requires |lefts| == NUM_STREAMS && it.lane < NUM_STREAMS && |it.bits| <= lefts[it.lane]
    ensures |l| == NUM_STREAMS
  {
    lefts[it.lane := LeftBehind(lefts[it.lane], it)]
  }

  /** What each lane must hold to begin with, and the words that must follow. */
  datatype Hand = Hand(lanes: seq<seq<bool>>, words: seq<seq<bool>>)

  ghost predicate Fair(lefts: seq<nat>, h: Hand) {
    && |lefts| == |h.lanes| == NUM_STREAMS && (forall l :: 0 <= l < NUM_STREAMS ==> |h.lanes[l]| == lefts[l])
    && forall j :: 0 <= j < |h.words| ==> |h.words[j]| == BITS_PER_PACKET
  }

  ghost function Deal(lefts: seq<nat>, items: seq<Item>): (h: Hand)
    requires |lefts| == NUM_STREAMS && Schedulable(lefts, items)
    ensures Fair(lefts, h)
    decreases |items|
  {
    if items == [] then Hand(seq(NUM_STREAMS, l requires 0 <= l < |lefts| => Repeat(false, lefts[l])), [])
    else
      var it := items[0];
      DealBack(lefts[it.lane], it, Deal(LeftsAfter(lefts, it), items[1..]))
  }

  /** One item put in front of what was dealt behind it: its lane held its bits,
      and of what the lane held then, the part above is the word it took. */
  function DealBack(left: nat, it: Item, h: Hand): Hand
    requires it.lane < |h.lanes| && |it.bits| <= left && |h.lanes[it.lane]| == LeftBehind(left, it)
  {
    var lane, n := h.lanes[it.lane], left - |it.bits|;
    Hand(h.lanes[it.lane := it.bits + lane[..n]], if TakesWordAt(left, it) then [lane[n..]] + h.words else h.words)
  }

  /** The words lie in the page from the cursor on. */
  ghost predicate Lie(page: seq<byte>, cursor: nat, words: seq<seq<bool>>) {
    cursor + |words| <= WordCount(page) && forall j :: 0 <= j < |words| ==> Word(page, cursor + j) == words[j]
  }

  /** Whatever is behind the words dealt, the page feeds the script. */
  lemma {:induction false} DealFeeds(page: seq<byte>, cursor: nat, lefts: seq<nat>, items: seq<Item>)
    requires |lefts| == NUM_STREAMS && Schedulable(lefts, items)
    requires Lie(page, cursor, Deal(lefts, items).words)
    ensures Feed(page, Streams(Deal(lefts, items).lanes, cursor), items).Ok?
    decreases |items|
  {
    hide Word, Lie, Refill, Consume;
    if items != [] {
      var it, left := items[0], lefts[items[0].lane];
      var rest := Deal(LeftsAfter(lefts, it), items[1..]);
      DealtBack(page, cursor, left, it, rest);
      OneItem(page, Streams(DealBack(left, it, rest).lanes, cursor), it, rest, left, cursor);
      DealFeeds(page, if TakesWordAt(left, it) then cursor + 1 else cursor, LeftsAfter(lefts, it), items[1..]);
    }
  }

  lemma DealtBack(page: seq<byte>, cursor: nat, left: nat, it: Item, h: Hand)
    requires it.lane < |h.lanes| && |it.bits| <= left && |h.lanes[it.lane]| == LeftBehind(left, it)
    requires Lie(page, cursor, DealBack(left, it, h).words)
    ensures if TakesWordAt(left, it)
            then cursor < WordCount(page) && Word(page, cursor) == h.lanes[it.lane][left - |it.bits|..] && Lie(page, cursor + 1, h.words)
            else Lie(page, cursor, h.words)
  {
    hide Word;
    if TakesWordAt(left, it) {
      var words := DealBack(left, it, h).words;
      assert Word(page, cursor + 0) == words[0];
      forall j | 0 <= j < |h.words| ensures Word(page, cursor + 1 + j) == h.words[j] {
        var k := j + 1;
        assert Word(page, cursor + k) == words[k];
      }
    }
  }

  lemma OneItem(page: seq<byte>, st: Streams, it: Item, rest: Hand, left: nat, cursor: nat)
    requires it.lane < NUM_STREAMS == |rest.lanes| && |it.bits| <= left && |rest.lanes[it.lane]| == LeftBehind(left, it)
    requires st == Streams(DealBack(left, it, rest).lanes, cursor)
    requires TakesWordAt(left, it) ==> cursor < WordCount(page) && Word(page, cursor) == rest.lanes[it.lane][left - |it.bits|..]
    ensures FeedOne(page, st, it) == Ok(Streams(rest.lanes, if TakesWordAt(left, it) then cursor + 1 else cursor))
  {
    hide Word;
    var lane, n := rest.lanes[it.lane], left - |it.bits|;
    var held := it.bits + lane[..n];
    var read := Consume(st, it.lane, |it.bits|);
    assert held[|it.bits|..] == lane[..n] && it.bits <= held;
    assert read.lanes == rest.lanes[it.lane := lane[..n]];
    assert lane[..n] + lane[n..] == lane;
    if TakesWordAt(left, it) {
      assert read.lanes[it.lane := lane] == rest.lanes;
    } else {
      assert lane[..n] == lane;
      assert read.lanes == rest.lanes;
    }
  }

  // ----- the page -----

  /** Words of bits, as bytes. */
  function PageOf(words: seq<seq<bool>>): (page: seq<byte>)
    ensures |page| == 4 * |words|
  {
    if words == [] then [] else PageOf(words[..|words| - 1]) + Little(Low(words[|words| - 1]), 4)
  }

  lemma {:induction false} PageWord(words: seq<seq<bool>>, w: nat)
    requires w < |words| && |words[w]| == BITS_PER_PACKET
    ensures w < WordCount(PageOf(words)) && Word(PageOf(words), w) == words[w]
  {
    hide Little, Low, BitsOf;
    var n := |words| - 1;
    var page, front := PageOf(words), PageOf(words[..n]);
    if w < n {
      PageWord(words[..n], w);
      assert page[4 * w..4 * w + 4] == front[4 * w..4 * w + 4];
      SameWord(page, front, w);
    } else {
      var b := Little(Low(words[w]), 4);
      assert page[4 * w..4 * w + 4] == b;
      BitsOfLow(words[w]);
      LittleInverse(Low(words[w]), 4);
      WordIsNumber(page, w);
    }
  }

  lemma SameWord(page: seq<byte>, front: seq<byte>, w: nat)
    requires w < WordCount(page) && w < WordCount(front) && page[4 * w..4 * w + 4] == front[4 * w..4 * w + 4]
    ensures Word(page, w) == Word(front, w)
  {
    hide BitsOf;
    WordIsNumber(page, w);
    WordIsNumber(front, w);
  }

  lemma WordIsNumber(page: seq<byte>, w: nat)
    requires w < WordCount(page)
    ensures WordAt(page, w) == Number(page[4 * w..4 * w + 4])
  {
    hide Number;
    WordAtIsLittleEndian(page, w);
    FourBytes(page[4 * w..4 * w + 4]);
  }

  lemma FourBytes(b: seq<byte>)
    requires |b| == 4
    ensures Number(b) == (b[0] as nat) + 0x100 * (b[1] as nat) + 0x1_0000 * (b[2] as nat) + 0x100_0000 * (b[3] as nat)
  {
    hide Number;
    FirstByte(b);
    FirstByte(b[1..]);
    FirstByte(b[2..]);
    FirstByte(b[3..]);
    assert b[1..][1..] == b[2..] && b[2..][1..] == b[3..] && b[3..][1..] == [];
    NoBytes();
  }

  lemma FirstByte(b: seq<byte>)
    requires b != []
    ensures Number(b) == (b[0] as nat) + 0x100 * Number(b[1..])
  {
  }

  lemma NoBytes()
    ensures Number([]) == 0
  {
  }

  /** The page of a script: the words priming deals, then those the refills take,
      then any others. */
  ghost function WritePage(items: seq<Item>, more: seq<seq<bool>>): seq<byte>
    requires Schedulable(Repeat(BITS_PER_PACKET, NUM_STREAMS), items)
  {
    var h := Deal(Repeat(BITS_PER_PACKET, NUM_STREAMS), items);
    PageOf(h.lanes + h.words + more)
  }

  /** Every script that asks no lane for more than it holds is what some page
      says, whatever else is behind. */
  lemma WrittenFeeds(items: seq<Item>, more: seq<seq<bool>>)
    requires Schedulable(Repeat(BITS_PER_PACKET, NUM_STREAMS), items)
    requires forall j :: 0 <= j < |more| ==> |more[j]| == BITS_PER_PACKET
    ensures var page := WritePage(items, more);
            Primed(page).Ok? && Ready(Primed(page).value) && Feed(page, Primed(page).value, items).Ok?
  {
    hide Word, PageOf, Schedulable, Deal;
    var lefts := Repeat(BITS_PER_PACKET, NUM_STREAMS);
    var h := Deal(lefts, items);
    var words := h.lanes + h.words + more;
    var page := PageOf(words);
    forall w | 0 <= w < |words| ensures w < WordCount(page) && Word(page, w) == words[w] {
      PageWord(words, w);
    }
    assert Primed(page).Ok?;
    assert Primed(page).value.lanes == h.lanes;
    forall j | 0 <= j < |h.words| ensures Word(page, NUM_STREAMS + j) == h.words[j] {
      var k := NUM_STREAMS + j;
      assert Word(page, k) == words[k];
    }
    DealFeeds(page, NUM_STREAMS, lefts, items);
  }

  // ----- scripts that can be scheduled -----

  function Levels(lefts: seq<nat>, items: seq<Item>): (l: seq<nat>)
    requires |lefts| == NUM_STREAMS && Schedulable(lefts, items)
    ensures |l| == NUM_STREAMS
    decreases |items|
  {
    if items == [] then lefts else Levels(LeftsAfter(lefts, items[0]), items[1..])
  }

  lemma {:induction false} ScheduleJoin(lefts: seq<nat>, a: seq<Item>, b: seq<Item>)
    requires |lefts| == NUM_STREAMS && Schedulable(lefts, a) && Schedulable(Levels(lefts, a), b)
    ensures Schedulable(lefts, a + b) && Levels(lefts, a + b) == Levels(Levels(lefts, a), b)
    decreases |a|
  {
    if a == [] {
      assert a + b == b;
    } else {
      assert (a + b)[1..] == a[1..] + b;
      ScheduleJoin(LeftsAfter(lefts, a[0]), a[1..], b);
    }
  }

  /** Every lane holds a word, but lane 0 perhaps only half of one. */
  predicate AtLevel(lefts: seq<nat>, lane0: nat) {
    |lefts| == NUM_STREAMS && lefts[0] >= lane0 && forall l :: 1 <= l < NUM_STREAMS ==> lefts[l] >= LOW_WATERMARK_BITS
  }

  /** Every item is short enough for the level, and its lane is due a word. */
  predicate Steady(items: seq<Item>, width: nat) {
    forall i :: 0 <= i < |items| ==> items[i].lane < NUM_STREAMS && |items[i].bits| <= width && items[i].due
  }

  /** Reads no wider than the level, each with a refill behind it, can go on for
      ever. */
  lemma {:induction false} SteadySchedules(lefts: seq<nat>, items: seq<Item>, lane0: nat)
    requires lane0 <= LOW_WATERMARK_BITS && AtLevel(lefts, lane0) && Steady(items, lane0)
    ensures Schedulable(lefts, items) && AtLevel(Levels(lefts, items), lane0)
    decreases |items|
  {
    if items != [] {
      SteadySchedules(LeftsAfter(lefts, items[0]), items[1..], lane0);
    }
  }
}
