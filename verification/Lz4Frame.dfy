/** The LZ4 frame: its descriptor, its block table and its tail, each as the
    inverse of writing them. The 32-bit checksum is a parameter. */
module Lz4Frame {
  import opened Bits
  import opened Cudec

  const FRAME_MAGIC := 0x184D2204
  const SKIPPABLE_MAGIC_MIN := 0x184D2A50
  const SKIPPABLE_MAGIC_MAX := 0x184D2A5F
  const MIN_HEADER_BYTES := 7
  const STORED_BIT := 0x8000_0000

  type Checksum = seq<byte> -> nat

  /** A frame's options; `bodyOff` is the first byte behind them. */
  datatype Descriptor = Descriptor(blockChecksum: bool, contentSize: bool, contentChecksum: bool, blockMax: nat, declared: nat, bodyOff: nat)

  datatype FrameBlock = FrameBlock(srcOff: nat, srcLen: nat, uncompressed: bool)

  function Read32(f: seq<byte>, p: nat): nat
    requires p + 4 <= |f|
  {
    Number(f[p..p + 4])
  }

  lemma Read32Inverse(f: seq<byte>, p: nat, v: nat)
    requires v < 0x1_0000_0000
    ensures At(f, p, Little(v, 4)) <==> p + 4 <= |f| && Read32(f, p) == v
  {
    BytePowers();
    LittleInverse(v, 4);
    if p + 4 <= |f| { NumberInverse(f[p..p + 4]); }
  }

  /** Four bytes are the little-endian spelling of the number they make. */
  lemma {:induction false} NumberInverse(w: seq<byte>)
    ensures Little(Number(w), |w|) == w
  {
    if w != [] {
      NumberInverse(w[1..]);
      assert Number(w) % 256 == w[0] && Number(w) / 256 == Number(w[1..]);
    }
  }

  // ----- the descriptor -----

  function Flag(b: bool): nat { if b then 1 else 0 }

  /** The four block maxima, 64 KiB doubled twice per step. */
  function BlockMax(code: nat): nat
    requires 4 <= code <= 7
  {
    if code == 4 then 0x1_0000 else if code == 5 then 0x4_0000 else if code == 6 then 0x10_0000 else 0x40_0000
  }

  predicate Describable(d: Descriptor, code: nat) {
    && 4 <= code <= 7 && d.blockMax == BlockMax(code)
    && d.declared < 0x1_0000_0000_0000_0000 && (!d.contentSize ==> d.declared == 0)
    && d.bodyOff == if d.contentSize then 15 else 7
  }

  /** The bytes the header checksum covers. */
  function DescriptorFields(d: Descriptor, code: nat): (w: seq<byte>)
    requires Describable(d, code)
    ensures |w| == d.bodyOff - 5
  {
    [0x60 + 16 * Flag(d.blockChecksum) + 8 * Flag(d.contentSize) + 4 * Flag(d.contentChecksum), 16 * code]
    + if d.contentSize then Little(d.declared, 8) else []
  }

  function HeaderByte(w: seq<byte>, hash: Checksum): byte {
    hash(w) / 256 % 256
  }

  /** The maxima in closed form, and the check byte as the second of the checksum's
      four. */
  lemma DescriptorCodes(code: nat, w: seq<byte>, hash: Checksum)
    requires 4 <= code <= 7
    ensures BlockMax(code) == Pow2(2 * code + 8) && HeaderByte(w, hash) == Little(hash(w), 4)[1]
  {
    BytePowers();
    Pow2Add(2 * code - 8, 16);
    assert Pow2(2) == 4 && Pow2(4) == 16 && Pow2(6) == 64;
  }

  function EncodeDescriptor(d: Descriptor, code: nat, hash: Checksum): (w: seq<byte>)
    requires Describable(d, code)
    ensures |w| == d.bodyOff
  {
    Little(FRAME_MAGIC, 4) + (DescriptorFields(d, code) + [HeaderByte(DescriptorFields(d, code), hash)])
  }

  ghost predicate DescribedBy(f: seq<byte>, d: Descriptor, hash: Checksum) {
    exists code :: Describable(d, code) && At(f, 0, EncodeDescriptor(d, code, hash))
  }

  lemma DescriptorAt(f: seq<byte>, d: Descriptor, code: nat, hash: Checksum)
    requires Describable(d, code)
    ensures At(f, 0, EncodeDescriptor(d, code, hash))
       <==> && d.bodyOff <= |f| && Read32(f, 0) == FRAME_MAGIC && f[4..d.bodyOff - 1] == DescriptorFields(d, code)
            && f[d.bodyOff - 1] == HeaderByte(f[4..d.bodyOff - 1], hash)
  {
    hide Little;
    var w := DescriptorFields(d, code);
    var hc := HeaderByte(w, hash);
    AtConcat(f, 0, Little(FRAME_MAGIC, 4), w + [hc]);
    AtConcat(f, 4, w, [hc]);
    AtOne(f, 4 + |w|, hc);
    Read32Inverse(f, 0, FRAME_MAGIC);
  }

  lemma FlagBits(flg: nat, bc: bool, cs: bool, cc: bool)
    requires flg == 0x60 + 16 * Flag(bc) + 8 * Flag(cs) + 4 * Flag(cc)
    ensures flg < 256 && flg / 64 % 4 == 1 && flg / 2 % 2 == 0 && flg / 32 % 2 == 1 && flg % 2 == 0
    ensures flg / 16 % 2 == Flag(bc) && flg / 8 % 2 == Flag(cs) && flg / 4 % 2 == Flag(cc)
  {
  }

  /** The flags the checks leave are the only ones that spell them. */
  lemma FlagsRead(flg: byte)
    requires flg / 64 % 4 == 1 && flg / 2 % 2 == 0 && flg / 32 % 2 == 1 && flg % 2 == 0
    ensures flg as nat == 0x60 + 16 * (flg / 16 % 2) + 8 * (flg / 8 % 2) + 4 * (flg / 4 % 2)
  {
  }

  /** What a described frame's first bytes are. */
  lemma DescribedBytes(f: seq<byte>, d: Descriptor, code: nat, hash: Checksum)
    requires Describable(d, code) && At(f, 0, EncodeDescriptor(d, code, hash))
    ensures d.bodyOff <= |f| && Read32(f, 0) == FRAME_MAGIC
    ensures f[4] == 0x60 + 16 * Flag(d.blockChecksum) + 8 * Flag(d.contentSize) + 4 * Flag(d.contentChecksum) && f[5] == 16 * code
    ensures d.contentSize ==> Number(f[6..14]) == d.declared
    ensures f[d.bodyOff - 1] == HeaderByte(f[4..d.bodyOff - 1], hash)
  {
    DescriptorAt(f, d, code, hash);
    var w := f[4..d.bodyOff - 1];
    assert f[4] == w[0] && f[5] == w[1];
    if d.contentSize {
      EightBytes();
      LittleInverse(d.declared, 8);
      assert f[6..14] == w[2..] == Little(d.declared, 8);
    }
  }

  lemma EightBytes()
    ensures Pow2(64) == 0x1_0000_0000_0000_0000
  {
    BytePowers();
    Pow2Add(32, 32);
  }

  /** A frame the checks let through is described by what they read. */
  lemma DescribedByFields(f: seq<byte>, d: Descriptor, code: nat, hash: Checksum)
    requires Describable(d, code) && d.bodyOff <= |f| && Read32(f, 0) == FRAME_MAGIC
    requires f[4] == 0x60 + 16 * Flag(d.blockChecksum) + 8 * Flag(d.contentSize) + 4 * Flag(d.contentChecksum) && f[5] == 16 * code
    requires d.contentSize ==> Number(f[6..14]) == d.declared
    requires f[d.bodyOff - 1] == HeaderByte(f[4..d.bodyOff - 1], hash)
    ensures DescribedBy(f, d, hash)
  {
    var w := f[4..d.bodyOff - 1];
    assert w == f[4..6] + f[6..d.bodyOff - 1] && f[4..6] == [f[4], f[5]];
    if d.contentSize { NumberInverse(f[6..14]); }
    assert w == DescriptorFields(d, code);
    DescriptorAt(f, d, code, hash);
  }

  /** Why a descriptor was declined rather than called corrupt: a skippable frame,
      or an otherwise sound one with linked blocks or a dictionary. */
  predicate Declined(f: seq<byte>) {
    && |f| >= 4
    && (SKIPPABLE_MAGIC_MIN <= Read32(f, 0) <= SKIPPABLE_MAGIC_MAX
        || (&& |f| >= MIN_HEADER_BYTES && Read32(f, 0) == FRAME_MAGIC
            && f[4] / 64 % 4 == 1 && f[4] / 2 % 2 == 0 && f[5] % 16 == 0 && 4 <= f[5] / 16 <= 7
            && (f[4] / 32 % 2 == 0 || f[4] % 2 == 1)))
  }

  /** Parse the descriptor. It accepts exactly the frames some descriptor
      describes, and declines exactly those that ask for what it does not do. */
  method Lz4ParseFrameDescriptor(f: seq<byte>, hash: Checksum) returns (status: Status, d: Descriptor)
    ensures status == Okay ==> DescribedBy(f, d, hash) && MIN_HEADER_BYTES <= d.bodyOff <= |f|
    ensures status != Okay ==> forall x :: !DescribedBy(f, x, hash)
    ensures status == Unsupported <==> Declined(f)
    ensures status == Okay || status == CorruptInput || status == Unsupported
  {
    hide Number, Little, HeaderByte, EncodeDescriptor, DescriptorFields, BlockMax, At;
    d := Descriptor(false, false, false, 0, 0, 0);
    NotDescribed(f, hash);
    if |f| < 4 {
      return CorruptInput, d;
    }
    var magic := Read32(f, 0);
    if SKIPPABLE_MAGIC_MIN <= magic <= SKIPPABLE_MAGIC_MAX {
      return Unsupported, d;
    }
    if |f| < MIN_HEADER_BYTES || magic != FRAME_MAGIC {
      return CorruptInput, d;
    }
    var flg: nat, bd: nat := f[4], f[5];
    if flg / 64 % 4 != 1 || flg / 2 % 2 != 0 {
      return CorruptInput, d;
    }
    if bd % 16 != 0 || bd / 128 != 0 {
      return CorruptInput, d;
    }
    var bmax := bd / 16 % 8;
    if bmax < 4 || bmax > 7 {
      return CorruptInput, d;
    }
    if flg / 32 % 2 == 0 || flg % 2 == 1 {
      return Unsupported, d;
    }
    FlagsRead(f[4]);
    var contentSize, pos, declared := flg / 8 % 2 == 1, 6, 0;
    if contentSize {
      if |f| < pos + 8 {
        return CorruptInput, d;
      }
      declared := Number(f[pos..pos + 8]);
      EightBytes();
      NumberBelow(f[pos..pos + 8]);
      pos := pos + 8;
    }
    if |f| < pos + 1 {
      return CorruptInput, d;
    }
    if HeaderByte(f[4..pos], hash) != f[pos] {
      return CorruptInput, d;
    }
    d := Descriptor(flg / 16 % 2 == 1, contentSize, flg / 4 % 2 == 1, BlockMax(bmax), declared, pos + 1);
    DescribedByFields(f, d, bmax, hash);
    status := Okay;
  }

  /** The checks, as what every described frame satisfies. */
  lemma NotDescribed(f: seq<byte>, hash: Checksum)
    ensures (exists d :: DescribedBy(f, d, hash)) ==>
              && |f| >= MIN_HEADER_BYTES && Read32(f, 0) == FRAME_MAGIC
              && f[4] / 64 % 4 == 1 && f[4] / 2 % 2 == 0 && f[4] / 32 % 2 == 1 && f[4] % 2 == 0
              && f[5] % 16 == 0 && f[5] / 128 == 0 && 4 <= f[5] / 16 % 8 <= 7
              && var end := if f[4] / 8 % 2 == 1 then 15 else 7;
                 |f| >= end && f[end - 1] == HeaderByte(f[4..end - 1], hash)
  {
    hide Number, Little, EncodeDescriptor, HeaderByte;
    if d: Descriptor :| DescribedBy(f, d, hash) {
      var code :| Describable(d, code) && At(f, 0, EncodeDescriptor(d, code, hash));
      DescribedBytes(f, d, code, hash);
      FlagBits(f[4], d.blockChecksum, d.contentSize, d.contentChecksum);
    }
  }

  /** One frame has one descriptor. */
  lemma OneDescriptor(f: seq<byte>, a: Descriptor, b: Descriptor, hash: Checksum)
    requires DescribedBy(f, a, hash) && DescribedBy(f, b, hash)
    ensures a == b
  {
    var ca :| Describable(a, ca) && At(f, 0, EncodeDescriptor(a, ca, hash));
    var cb :| Describable(b, cb) && At(f, 0, EncodeDescriptor(b, cb, hash));
    DescribedBytes(f, a, ca, hash);
    DescribedBytes(f, b, cb, hash);
    FlagBits(f[4], a.blockChecksum, a.contentSize, a.contentChecksum);
    FlagBits(f[4], b.blockChecksum, b.contentSize, b.contentChecksum);
  }

  // ----- the block table -----

  datatype Table = Table(blocks: seq<FrameBlock>, tail: nat) | Stopped(at: nat)

  /** A block as it is written: its payload, and whether that is stored or LZ4. */
  datatype Payload = Payload(bytes: seq<byte>, uncompressed: bool)

  predicate Writable(b: Payload, d: Descriptor) {
    1 <= |b.bytes| <= d.blockMax && d.blockMax < STORED_BIT
  }

  function Trailer(d: Descriptor): nat { if d.blockChecksum then 4 else 0 }

  function EncodeBlock(b: Payload, d: Descriptor, hash: Checksum): (w: seq<byte>)
    requires Writable(b, d)
    ensures |w| == 4 + |b.bytes| + Trailer(d)
  {
    Little(|b.bytes| + (if b.uncompressed then STORED_BIT else 0), 4)
    + (b.bytes + (if d.blockChecksum then Little(hash(b.bytes), 4) else []))
  }

  function EncodeTable(bs: seq<Payload>, d: Descriptor, hash: Checksum): (w: seq<byte>)
    requires forall i :: 0 <= i < |bs| ==> Writable(bs[i], d)
    ensures |w| >= 4
  {
    if bs == [] then Little(0, 4) else EncodeBlock(bs[0], d, hash) + EncodeTable(bs[1..], d, hash)
  }

  /** A block the walk takes at `pos`. */
  predicate BlockAt(f: seq<byte>, pos: nat, d: Descriptor, hash: Checksum) {
    && pos + 4 <= |f|
    && var n := Read32(f, pos) % STORED_BIT;
       && 0 < n <= d.blockMax && pos + 4 + n + Trailer(d) <= |f|
       && (d.blockChecksum ==> hash(f[pos + 4..pos + 4 + n]) == Read32(f, pos + 4 + n))
  }

  function TheBlock(f: seq<byte>, pos: nat): FrameBlock
    requires pos + 4 <= |f|
  {
    FrameBlock(pos + 4, Read32(f, pos) % STORED_BIT, Read32(f, pos) / STORED_BIT == 1)
  }

  function Prepend(b: FrameBlock, t: Table): Table {
    match t
    case Table(blocks, tail) => Table([b] + blocks, tail)
    case Stopped(at) => Stopped(at)
  }

  function WalkFrom(f: seq<byte>, pos: nat, d: Descriptor, hash: Checksum): Table
    decreases |f| - pos
  {
    if pos + 4 <= |f| && Read32(f, pos) == 0 then Table([], pos + 4)
    else if !BlockAt(f, pos, d, hash) then Stopped(pos)
    else
      var b := TheBlock(f, pos);
      Prepend(b, WalkFrom(f, b.srcOff + b.srcLen + Trailer(d), d, hash))
  }

  function Onto(blocks: seq<FrameBlock>, t: Table): Table {
    match t
    case Table(rest, tail) => Table(blocks + rest, tail)
    case Stopped(at) => Stopped(at)
  }

  /** Walk the block table. The fuel is never what ends it. */
  method Lz4WalkFrameBlocks(f: seq<byte>, d: Descriptor, hash: Checksum)
    returns (status: Status, blocks: seq<FrameBlock>, tailOff: nat)
    requires d.bodyOff <= |f| && d.blockMax < STORED_BIT
    ensures match WalkFrom(f, d.bodyOff, d, hash)
            case Table(bs, tail) => status == Okay && blocks == bs && tailOff == tail <= |f|
            case Stopped(at) => status == CorruptInput && tailOff == at
  {
    hide WalkFrom, Number, Onto, BlockAt;
    ghost var goal := WalkFrom(f, d.bodyOff, d, hash);
    var pos: nat := d.bodyOff;
    blocks := [];
    var fuel: nat := |f| / 4 + 1;
    var endMark := false;
    OntoNothing(goal);
    while fuel != 0
      invariant pos <= |f| && 4 * fuel + pos >= |f| + 1
      invariant goal == Onto(blocks, WalkFrom(f, pos, d, hash))
      decreases fuel
    {
      fuel := fuel - 1;
      WalkUnfold(f, pos, d, hash);
      BlockChecks(f, pos, d, hash);
      OntoEnd(blocks, pos + 4);
      OntoStop(blocks, pos);
      var headerOff := pos;
      if |f| < pos + 4 {
        return CorruptInput, blocks, headerOff;
      }
      var bs := Read32(f, pos);
      pos := pos + 4;
      if bs == 0 {
        return Okay, blocks, pos;
      }
      var uncompressed := bs / STORED_BIT % 2 == 1;
      var blen := bs % STORED_BIT;
      if blen == 0 || blen > d.blockMax || |f| < pos + blen {
        return CorruptInput, blocks, headerOff;
      }
      if d.blockChecksum {
        if |f| < pos + blen + 4 {
          return CorruptInput, blocks, headerOff;
        }
        if hash(f[pos..pos + blen]) != Read32(f, pos + blen) {
          return CorruptInput, blocks, headerOff;
        }
      }
      OntoOne(blocks, FrameBlock(pos, blen, uncompressed), WalkFrom(f, pos + blen + Trailer(d), d, hash));
      blocks := blocks + [FrameBlock(pos, blen, uncompressed)];
      pos := pos + blen + (if d.blockChecksum then 4 else 0);
    }
    assert false;
    status, tailOff := CorruptInput, pos;
  }

  /** The checks of one turn, in the order they are made. */
  lemma BlockChecks(f: seq<byte>, pos: nat, d: Descriptor, hash: Checksum)
    ensures pos + 4 > |f| ==> !BlockAt(f, pos, d, hash)
    ensures pos + 4 <= |f| ==>
              var bs := Read32(f, pos);
              var n := bs % STORED_BIT;
              && bs / STORED_BIT <= 1
              && (n == 0 || n > d.blockMax || |f| < pos + 4 + n ==> !BlockAt(f, pos, d, hash))
              && (0 < n <= d.blockMax && pos + 4 + n <= |f| ==>
                    (BlockAt(f, pos, d, hash)
                     <==> d.blockChecksum ==> pos + 4 + n + 4 <= |f| && hash(f[pos + 4..pos + 4 + n]) == Read32(f, pos + 4 + n)))
  {
    hide Number;
    if pos + 4 <= |f| {
      NumberBelow(f[pos..pos + 4]);
      BytePowers();
    }
  }

  lemma WalkUnfold(f: seq<byte>, pos: nat, d: Descriptor, hash: Checksum)
    ensures WalkFrom(f, pos, d, hash)
         == if pos + 4 <= |f| && Read32(f, pos) == 0 then Table([], pos + 4)
            else if !BlockAt(f, pos, d, hash) then Stopped(pos)
            else
              var b := TheBlock(f, pos);
              Prepend(b, WalkFrom(f, b.srcOff + b.srcLen + Trailer(d), d, hash))
  {
  }

  lemma OntoNothing(t: Table)
    ensures Onto([], t) == t
  {
    if t.Table? { assert [] + t.blocks == t.blocks; }
  }

  lemma OntoEnd(blocks: seq<FrameBlock>, tail: nat)
    ensures Onto(blocks, Table([], tail)) == Table(blocks, tail)
  {
    assert blocks + [] == blocks;
  }

  lemma OntoStop(blocks: seq<FrameBlock>, at: nat)
    ensures Onto(blocks, Stopped(at)) == Stopped(at)
  {
  }

  lemma OntoOne(blocks: seq<FrameBlock>, b: FrameBlock, t: Table)
    ensures Onto(blocks, Prepend(b, t)) == Onto(blocks + [b], t)
  {
    if t.Table? { assert blocks + ([b] + t.blocks) == (blocks + [b]) + t.blocks; }
  }

  function PayloadOf(f: seq<byte>, b: FrameBlock): Payload {
    Payload(if b.srcOff + b.srcLen <= |f| then f[b.srcOff..b.srcOff + b.srcLen] else [], b.uncompressed)
  }

  function PayloadsOf(f: seq<byte>, blocks: seq<FrameBlock>): (ps: seq<Payload>)
    ensures |ps| == |blocks|
  {
    if blocks == [] then [] else [PayloadOf(f, blocks[0])] + PayloadsOf(f, blocks[1..])
  }

  /** A block lies at `pos` exactly when some payload is written there. */
  lemma BlockInverse(f: seq<byte>, pos: nat, d: Descriptor, hash: Checksum, b: Payload)
    requires Writable(b, d) && (forall x :: hash(x) < 0x1_0000_0000)
    ensures At(f, pos, EncodeBlock(b, d, hash))
       <==> BlockAt(f, pos, d, hash) && PayloadOf(f, TheBlock(f, pos)) == b
  {
    hide *;
    BlockParts(f, pos, d, hash, b);
    PartsAreBlock(f, pos, d, hash, b);
  }

  ghost predicate WrittenAt(f: seq<byte>, pos: nat, d: Descriptor, hash: Checksum, b: Payload) {
    var n := |b.bytes|;
    && pos + 4 <= |f| && Read32(f, pos) == n + (if b.uncompressed then STORED_BIT else 0)
    && At(f, pos + 4, b.bytes)
    && (d.blockChecksum ==> pos + 4 + n + 4 <= |f| && Read32(f, pos + 4 + n) == hash(b.bytes))
  }

  lemma BlockParts(f: seq<byte>, pos: nat, d: Descriptor, hash: Checksum, b: Payload)
    requires Writable(b, d) && (forall x :: hash(x) < 0x1_0000_0000)
    ensures At(f, pos, EncodeBlock(b, d, hash)) <==> WrittenAt(f, pos, d, hash, b)
  {
    hide Little, Number, Read32;
    var n := |b.bytes|;
    var head := n + (if b.uncompressed then STORED_BIT else 0);
    var trailer := if d.blockChecksum then Little(hash(b.bytes), 4) else [];
    AtConcat(f, pos, Little(head, 4), b.bytes + trailer);
    AtConcat(f, pos + 4, b.bytes, trailer);
    Read32Inverse(f, pos, head);
    if d.blockChecksum { Read32Inverse(f, pos + 4 + n, hash(b.bytes)); }
  }

  lemma SizeWord(v: nat, n: nat, uncompressed: bool)
    requires v < 0x1_0000_0000
    ensures v == v % STORED_BIT + (if v / STORED_BIT == 1 then STORED_BIT else 0)
    ensures n < STORED_BIT && v == n + (if uncompressed then STORED_BIT else 0) ==> v % STORED_BIT == n && (v / STORED_BIT == 1 <==> uncompressed)
  {
  }

  lemma PartsAreBlock(f: seq<byte>, pos: nat, d: Descriptor, hash: Checksum, b: Payload)
    requires Writable(b, d)
    ensures WrittenAt(f, pos, d, hash, b) <==> BlockAt(f, pos, d, hash) && PayloadOf(f, TheBlock(f, pos)) == b
  {
    hide Read32;
    if pos + 4 <= |f| {
      Read32Below(f, pos);
      SizeWord(Read32(f, pos), |b.bytes|, b.uncompressed);
      if WrittenAt(f, pos, d, hash, b) {
        assert TheBlock(f, pos) == FrameBlock(pos + 4, |b.bytes|, b.uncompressed);
      }
    }
  }

  lemma Read32Below(f: seq<byte>, p: nat)
    requires p + 4 <= |f|
    ensures Read32(f, p) < 0x1_0000_0000
  {
    NumberBelow(f[p..p + 4]);
    BytePowers();
  }

  /** A written table walks back to its payloads, whatever follows it. */
  lemma {:induction false} TableInverse(f: seq<byte>, pos: nat, d: Descriptor, hash: Checksum, bs: seq<Payload>)
    requires (forall i :: 0 <= i < |bs| ==> Writable(bs[i], d)) && (forall x :: hash(x) < 0x1_0000_0000)
    requires At(f, pos, EncodeTable(bs, d, hash))
    ensures var t := WalkFrom(f, pos, d, hash);
            t.Table? && t.tail == pos + |EncodeTable(bs, d, hash)| && PayloadsOf(f, t.blocks) == bs
    decreases |bs|
  {
    hide EncodeBlock, Number, Little, BlockAt, PayloadOf;
    if bs == [] {
      Read32Inverse(f, pos, 0);
    } else {
      var b := bs[0];
      AtConcat(f, pos, EncodeBlock(b, d, hash), EncodeTable(bs[1..], d, hash));
      BlockInverse(f, pos, d, hash, b);
      BlockIsNotEnd(f, pos, d, hash);
      SizeOf(f, pos, d, hash, b);
      TableInverse(f, pos + |EncodeBlock(b, d, hash)|, d, hash, bs[1..]);
      var t := WalkFrom(f, pos, d, hash);
      assert t.blocks[1..] == WalkFrom(f, pos + |EncodeBlock(b, d, hash)|, d, hash).blocks;
    }
  }

  lemma BlockIsNotEnd(f: seq<byte>, pos: nat, d: Descriptor, hash: Checksum)
    requires BlockAt(f, pos, d, hash)
    ensures pos + 4 <= |f| && Read32(f, pos) != 0
  {
  }

  lemma SizeOf(f: seq<byte>, pos: nat, d: Descriptor, hash: Checksum, b: Payload)
    requires Writable(b, d) && BlockAt(f, pos, d, hash) && PayloadOf(f, TheBlock(f, pos)) == b
    ensures TheBlock(f, pos).srcOff + TheBlock(f, pos).srcLen + Trailer(d) == pos + |EncodeBlock(b, d, hash)|
  {
  }

  /** And a table the walk accepts is the one writing of its payloads: no other
      bytes walk to the same blocks. */
  lemma {:induction false} WalkedIsWritten(f: seq<byte>, pos: nat, d: Descriptor, hash: Checksum)
    requires WalkFrom(f, pos, d, hash).Table? && d.blockMax < STORED_BIT && (forall x :: hash(x) < 0x1_0000_0000)
    ensures var t := WalkFrom(f, pos, d, hash);
            var bs := PayloadsOf(f, t.blocks);
            && pos <= t.tail <= |f|
            && (forall i :: 0 <= i < |bs| ==> Writable(bs[i], d))
            && At(f, pos, EncodeTable(bs, d, hash)) && t.tail == pos + |EncodeTable(bs, d, hash)|
    decreases |f| - pos
  {
    hide EncodeBlock, Number, Little;
    if Read32(f, pos) == 0 {
      Read32Inverse(f, pos, 0);
    } else {
      var b := TheBlock(f, pos);
      var next := b.srcOff + b.srcLen + Trailer(d);
      WalkedIsWritten(f, next, d, hash);
      var t := WalkFrom(f, pos, d, hash);
      var rest := WalkFrom(f, next, d, hash);
      assert t.blocks[1..] == rest.blocks;
      var bs := PayloadsOf(f, t.blocks);
      assert bs[1..] == PayloadsOf(f, rest.blocks);
      BlockInverse(f, pos, d, hash, bs[0]);
      SizeOf(f, pos, d, hash, bs[0]);
      AtConcat(f, pos, EncodeBlock(bs[0], d, hash), EncodeTable(bs[1..], d, hash));
    }
  }

  // ----- the tail -----

  /** What a frame claims about its own content. */
  predicate TailHolds(f: seq<byte>, d: Descriptor, tailOff: nat, content: seq<byte>, hash: Checksum) {
    && (d.contentSize ==> d.declared == |content|)
    && (d.contentChecksum ==> tailOff + 4 <= |f| && hash(content) == Read32(f, tailOff))
  }

  method Lz4VerifyFrameTail(f: seq<byte>, d: Descriptor, tailOff: nat, content: seq<byte>, hash: Checksum) returns (status: Status)
    ensures status == if TailHolds(f, d, tailOff, content, hash) then Okay else CorruptInput
  {
    if d.contentSize && d.declared != |content| {
      return CorruptInput;
    }
    if d.contentChecksum {
      if |f| < tailOff + 4 {
        return CorruptInput;
      }
      if hash(content) != Read32(f, tailOff) {
        return CorruptInput;
      }
    }
    return Okay;
  }
}
