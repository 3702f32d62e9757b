/** The two adversarial block builders and the block walk of the LZ4 benchmark.
    The builders are encoders: what they write is a block every margin admits,
    and it decodes to the original they state. */
module Lz4Bench {
  import opened Bits
  import opened Lz77
  import opened Lz4Format
  import opened Lz4Twin

  const SEED: byte := 0xA5
  const MIN_TAIL := 12
  const WORST4B_MIN_BYTES := 256
  const LONGMATCH_OFFSET := 512
  const LONGMATCH_MATCH_LEN := 255
  const LONGMATCH_MIN_BYTES := LONGMATCH_OFFSET + LONGMATCH_MATCH_LEN + MIN_TAIL + 16

  // ----- encoding sequence by sequence -----

  function EncodeAll(sequences: seq<Sequence>): seq<byte>
    requires forall i :: 0 <= i < |sequences| ==> Legal(sequences[i])
    decreases |sequences|
  {
    if sequences == [] then [] else EncodeSequence(sequences[0]) + EncodeAll(sequences[1..])
  }

  lemma {:induction false} EncodeOneMore(a: seq<Sequence>, s: Sequence)
    requires Legal(s) && forall i :: 0 <= i < |a| ==> Legal(a[i])
    ensures EncodeAll(a + [s]) == EncodeAll(a) + EncodeSequence(s)
    decreases |a|
  {
    hide EncodeSequence;
    if a == [] {
      assert ([s])[1..] == [] && a + [s] == [s];
      assert EncodeAll([s]) == EncodeSequence(s) + EncodeAll([]);
    } else {
      assert (a + [s])[1..] == a[1..] + [s];
      EncodeOneMore(a[1..], s);
    }
  }

  lemma {:induction false} EncodeJoins(b: Block)
    requires LegalBlock(b)
    ensures Encode(b) == EncodeAll(b.sequences) + EncodeTail(b.tail, b.nibble)
    decreases |b.sequences|
  {
    hide EncodeSequence, EncodeTail;
    if b.sequences != [] { EncodeJoins(Rest(b)); }
  }

  /** `c` is `sequences`, encoded, and they decode to `out`. */
  ghost predicate Emitted(sequences: seq<Sequence>, c: seq<byte>, out: seq<byte>) {
    && (forall i :: 0 <= i < |sequences| ==> Legal(sequences[i]))
    && c == EncodeAll(sequences) && Reaches(0, sequences) && Written([], sequences) == out
    && (sequences != [] ==> sequences[|sequences| - 1].matchLen + MIN_TAIL >= MIN_TRAILING_SLACK_DST)
  }

  lemma NothingEmitted()
    ensures Emitted([], [], [])
  {
  }

  lemma EmitOne(sequences: seq<Sequence>, c: seq<byte>, out: seq<byte>, s: Sequence)
    requires Emitted(sequences, c, out) && Legal(s) && s.offset <= |out| + |s.literals|
    ensures Emitted(sequences + [s], c + EncodeSequence(s), CopyMatch(out + s.literals, s.offset, s.matchLen))
  {
    hide EncodeSequence, CopyMatch, Output, EncodeAll;
    EncodeOneMore(sequences, s);
    WrittenOneMore([], sequences, s);
  }

  /** A tail of twelve literals or more closes any emitted sequences. */
  lemma EmitTail(sequences: seq<Sequence>, c: seq<byte>, out: seq<byte>, tail: seq<byte>)
    requires Emitted(sequences, c, out) && |tail| >= MIN_TAIL
    ensures var b := Block(sequences, tail, 0);
            && Encodable(0, b) && Reaches(0, sequences) && OutBytes(b) == |out + tail|
            && (forall cap: nat :: cap >= |out + tail| ==> Accepted(c + EncodeTail(tail, 0), cap, b))
            && Output([], b) == out + tail
  {
    hide EncodeSequence, EncodeTail, CopyMatch, EncodeAll, Parses;
    var b, src := Block(sequences, tail, 0), c + EncodeTail(tail, 0);
    EncodeJoins(b);
    WrittenLength([], sequences);
    forall cap: nat | cap >= |out + tail| ensures Accepted(src, cap, b) {
      assert src[0..] == src;
      EncodableParses(src, cap, 0, 0, b);
    }
    TailWrites(sequences, tail);
  }

  lemma TailWrites(sequences: seq<Sequence>, tail: seq<byte>)
    requires Reaches(0, sequences)
    ensures Output([], Block(sequences, tail, 0)) == Written([], sequences) + tail
  {
    hide CopyMatch;
    var rest := Block([], tail, 0);
    JoinOutput([], sequences, rest);
    assert Join(sequences, rest) == Block(sequences, tail, 0);
    WrittenLength([], sequences);
    NoSequencesReach(SequenceBytes(sequences), rest);
  }

  /** The extension of a field whose nibble is saturated. */
  method EmitLengthExtension(c: seq<byte>, value: nat) returns (c': seq<byte>)
    requires value >= RUN_MASK
    ensures c' == c + Extension(value - RUN_MASK)
  {
    var rem: nat := value - RUN_MASK;
    c' := c;
    while rem >= 255
      invariant c' + Extension(rem) == c + Extension(value - RUN_MASK)
    {
      assert c' + Extension(rem) == (c' + [255]) + Extension(rem - 255);
      c' := c' + [255];
      rem := rem - 255;
    }
    c' := c' + [rem];
  }

  // ----- the minimum-match block -----

  lemma MinimumMatch(literals: nat)
    requires literals <= 1
    ensures var s := Sequence(Repeat(SEED, literals), 1, 4);
            Legal(s) && EncodeSequence(s) == (if literals == 1 then [0x10, SEED] else [0x00]) + [0x01, 0x00]
  {
    var s := Sequence(Repeat(SEED, literals), 1, 4);
    assert LengthCode(|s.literals|) == [] && LengthCode(s.matchLen - MIN_MATCH) == [];
    if literals == 1 {
      assert s.literals == [SEED];
      assert Head(s) == [0x10];
    } else {
      assert Head(s) == [0x00];
    }
  }

  /** Minimum matches at offset one, to within fifteen bytes of the end. */
  method BuildWorst4bBlock(outBytes: nat) returns (ok: bool, original: seq<byte>, compressed: seq<byte>, ghost block: Block)
    ensures ok <==> outBytes >= WORST4B_MIN_BYTES
    ensures ok ==>
              && original == Repeat(SEED, outBytes) && OutBytes(block) == outBytes
              && (forall cap: nat :: cap >= outBytes ==> Accepted(compressed, cap, block))
              && Reaches(0, block.sequences) && Output([], block) == original
    ensures ok ==> 4 * |block.sequences| + 16 >= outBytes
  {
    hide EncodeSequence, Emitted, Output, Accepted, CopyMatch, Reaches, Encodable;
    original, compressed, block := [], [], Block([], [], 0);
    if outBytes < WORST4B_MIN_BYTES {
      return false, original, compressed, block;
    }
    original := Repeat(SEED, outBytes);
    NothingEmitted();
    MinimumMatch(1);
    MinimumMatch(0);
    ghost var sequences := [Sequence(Repeat(SEED, 1), 1, 4)];
    compressed := [0x10, SEED, 0x01, 0x00];
    EmitOne([], [], [], sequences[0]);
    assert [] + sequences == sequences && [] + compressed == compressed && [] + Repeat(SEED, 1) == Repeat(SEED, 1);
    assert [0x10, SEED] + [0x01, 0x00] == compressed;
    CopyOfConstant(SEED, 1, 4);
    var produced := 5;
    while produced + 4 <= outBytes - MIN_TAIL
      invariant 5 <= produced <= outBytes - MIN_TAIL && produced == 4 * |sequences| + 1
      invariant Emitted(sequences, compressed, Repeat(SEED, produced))
    {
      ghost var s := Sequence(Repeat(SEED, 0), 1, 4);
      EmitOne(sequences, compressed, Repeat(SEED, produced), s);
      assert Repeat(SEED, produced) + s.literals == Repeat(SEED, produced);
      assert [0x00] + [0x01, 0x00] == [0x00, 0x01, 0x00];
      CopyOfConstant(SEED, produced, 4);
      sequences := sequences + [s];
      compressed := compressed + [0x00, 0x01, 0x00];
      produced := produced + 4;
    }
    var tail := outBytes - produced;
    EmitTail(sequences, compressed, Repeat(SEED, produced), Repeat(SEED, tail));
    assert Repeat(SEED, produced) + Repeat(SEED, tail) == original;
    var c := compressed;
    if tail < 15 {
      compressed := compressed + [16 * tail];
    } else {
      compressed := compressed + [0xF0];
      compressed := EmitLengthExtension(compressed, tail);
    }
    compressed := compressed + Repeat(SEED, tail);
    assert compressed == c + EncodeTail(Repeat(SEED, tail), 0);
    block := Block(sequences, Repeat(SEED, tail), 0);
    ok := true;
  }

  // ----- the long-match block -----

  /** Byte `i` of the periodic original. */
  function Pattern(i: nat): byte {
    ((i % LONGMATCH_OFFSET) * 191 + 13) % 256
  }

  function Patterned(n: nat): (r: seq<byte>)
    ensures |r| == n && forall i :: 0 <= i < n ==> r[i] == Pattern(i)
  {
    seq(n, i requires 0 <= i => Pattern(i))
  }

  lemma PatternRepeats(i: nat)
    requires i >= LONGMATCH_OFFSET
    ensures Pattern(i) == Pattern(i - LONGMATCH_OFFSET)
  {
    SameResidue(i - LONGMATCH_OFFSET, LONGMATCH_OFFSET);
  }

  lemma SameResidue(i: nat, d: nat)
    requires d >= 1
    ensures (i + d) % d == i % d
  {
    var q, r := DivMod(i, d);
    MulStep(q, d);
    DivModUnique(i + d, d, q + 1, r);
  }

  /** A match at the period carries the pattern on. */
  lemma PatternContinues(n: nat, len: nat)
    requires n >= LONGMATCH_OFFSET
    ensures CopyMatch(Patterned(n), LONGMATCH_OFFSET, len) == Patterned(n + len)
  {
    hide Pattern, CopyMatch;
    var out := Patterned(n + len);
    forall i | n <= i < n + len ensures out[i] == out[i - LONGMATCH_OFFSET] {
      PatternRepeats(i);
    }
    CopyByEquation(out, n, LONGMATCH_OFFSET, len);
    assert out[..n] == Patterned(n) && out[..n + len] == out;
  }

  ghost function LongMatch(literals: nat): Sequence {
    Sequence(Patterned(literals), LONGMATCH_OFFSET, LONGMATCH_MATCH_LEN)
  }

  lemma LongMatchEncodes(literals: nat)
    requires literals == 0 || literals == LONGMATCH_OFFSET
    ensures Legal(LongMatch(literals))
    ensures EncodeSequence(LongMatch(literals))
         == (if literals == 0 then [0x0F] else [0xFF] + Extension(LONGMATCH_OFFSET - RUN_MASK) + Patterned(literals))
            + [0x00, 0x02] + Extension(LONGMATCH_MATCH_LEN - MIN_MATCH - RUN_MASK)
  {
    hide Extension;
    var s := LongMatch(literals);
    var field := LONGMATCH_MATCH_LEN - MIN_MATCH;
    assert LengthCode(field) == Extension(field - RUN_MASK);
    if literals == 0 {
      assert LengthCode(0) == [] && Head(s) == [0x0F] && s.literals == [];
    } else {
      assert LengthCode(literals) == Extension(LONGMATCH_OFFSET - RUN_MASK);
      assert Head(s) == [0xFF] + Extension(LONGMATCH_OFFSET - RUN_MASK);
    }
  }

  /** One match of the body, with or without the seed before it. */
  method EmitLongMatch(c: seq<byte>, literals: seq<byte>) returns (c': seq<byte>)
    requires literals == [] || literals == Patterned(LONGMATCH_OFFSET)
    ensures Legal(LongMatch(|literals|)) && c' == c + EncodeSequence(LongMatch(|literals|))
  {
    hide EncodeSequence, Extension, Pattern;
    var matchField := LONGMATCH_MATCH_LEN - MIN_MATCH;
    LongMatchEncodes(|literals|);
    c' := c + [16 * Nibble(|literals|) + Nibble(matchField)];
    if |literals| >= RUN_MASK {
      c' := EmitLengthExtension(c', |literals|);
    }
    c' := c' + literals + [LONGMATCH_OFFSET % 256, LONGMATCH_OFFSET / 256];
    c' := EmitLengthExtension(c', matchField);
    assert c' == c + EncodeSequence(LongMatch(|literals|));
  }

  /** Back-to-back matches of 255 bytes at offset 512 behind a literal seed. */
  method BuildLongmatchBlock(outBytes: nat) returns (ok: bool, original: seq<byte>, compressed: seq<byte>, ghost block: Block)
    ensures ok <==> outBytes >= LONGMATCH_MIN_BYTES
    ensures ok ==>
              && original == Patterned(outBytes) && OutBytes(block) == outBytes
              && (forall cap: nat :: cap >= outBytes ==> Accepted(compressed, cap, block))
              && Reaches(0, block.sequences) && Output([], block) == original
    ensures ok ==> forall i :: 0 <= i < |block.sequences| ==> block.sequences[i].offset >= block.sequences[i].matchLen
  {
    hide EncodeSequence, Emitted, Output, Accepted, CopyMatch, Reaches, Encodable, Extension, Pattern;
    original, compressed, block := [], [], Block([], [], 0);
    if outBytes < LONGMATCH_MIN_BYTES {
      return false, original, compressed, block;
    }
    original := seq(outBytes, i requires 0 <= i => Pattern(i));
    var matches: nat := (outBytes - LONGMATCH_OFFSET - MIN_TAIL) / LONGMATCH_MATCH_LEN;
    var body := LONGMATCH_OFFSET + matches * LONGMATCH_MATCH_LEN;
    var tail := outBytes - body;
    NothingEmitted();
    assert original[..LONGMATCH_OFFSET] == Patterned(LONGMATCH_OFFSET);
    compressed := EmitLongMatch([], original[..LONGMATCH_OFFSET]);
    ghost var sequences := [LongMatch(LONGMATCH_OFFSET)];
    EmitOne([], [], [], sequences[0]);
    assert [] + sequences == sequences && [] + Patterned(LONGMATCH_OFFSET) == Patterned(LONGMATCH_OFFSET);
    PatternContinues(LONGMATCH_OFFSET, LONGMATCH_MATCH_LEN);
    for m := 1 to matches
      invariant Emitted(sequences, compressed, Patterned(LONGMATCH_OFFSET + LONGMATCH_MATCH_LEN * m))
      invariant forall i :: 0 <= i < |sequences| ==> sequences[i].offset >= sequences[i].matchLen
    {
      ghost var c, n := compressed, LONGMATCH_OFFSET + LONGMATCH_MATCH_LEN * m;
      compressed := EmitLongMatch(compressed, []);
      EmitOne(sequences, c, Patterned(n), LongMatch(0));
      assert Patterned(n) + [] == Patterned(n);
      PatternContinues(n, LONGMATCH_MATCH_LEN);
      sequences := sequences + [LongMatch(0)];
    }
    ghost var c := compressed;
    compressed := compressed + [16 * Nibble(tail)];
    if tail >= RUN_MASK {
      compressed := EmitLengthExtension(compressed, tail);
    }
    compressed := compressed + original[body..];
    EmitTail(sequences, c, Patterned(body), original[body..]);
    assert compressed == c + EncodeTail(original[body..], 0);
    assert Patterned(body) + original[body..] == original;
    block := Block(sequences, original[body..], 0);
    ok := true;
  }

  // ----- walking a block -----

  datatype BlockShape = BlockShape(sequences: nat, literalBytes: nat, matchBytes: nat)

  function Shape(b: Block): (s: BlockShape)
    ensures s.literalBytes + s.matchBytes == OutBytes(b) && s.sequences == |b.sequences|
    decreases |b.sequences|
  {
    if b.sequences == [] then BlockShape(0, |b.tail|, 0)
    else
      var s := Shape(Rest(b));
      BlockShape(s.sequences + 1, s.literalBytes + |b.sequences[0].literals|, s.matchBytes + b.sequences[0].matchLen)
  }

  /** A length field and its extension. */
  method WalkLength(c: seq<byte>, pos: nat, nibble: nat) returns (ok: bool, n: nat, pos': nat)
    requires nibble <= RUN_MASK && pos <= |c|
    ensures ok ==> ReadLength(c, pos, nibble) == Field(n, pos') && pos <= pos' <= |c|
    ensures !ok ==> ReadLength(c, pos, nibble).NoField?
  {
    n, pos' := nibble, pos;
    if nibble == RUN_MASK {
      ghost var whole := ReadExtension(c, pos);
      while pos' < |c| && c[pos'] == 255
        invariant pos <= pos' <= |c| && n >= RUN_MASK
        invariant whole == match ReadExtension(c, pos')
                           case Field(v, next) => Field(v + (n - RUN_MASK), next)
                           case NoField => NoField
      {
        n := n + 255;
        pos' := pos' + 1;
      }
      if pos' >= |c| {
        return false, n, pos';
      }
      n := n + c[pos'];
      pos' := pos' + 1;
    }
    ok := true;
  }

  /** `rest` is what is left of `b` to walk, and `shape` what has been counted. */
  ghost predicate Walked(c: seq<byte>, pos: nat, b: Block, rest: Block, shape: BlockShape) {
    && pos <= |c| && LegalBlock(rest) && c[pos..] == Encode(rest)
    && shape.sequences + Shape(rest).sequences == Shape(b).sequences
    && shape.literalBytes + Shape(rest).literalBytes == Shape(b).literalBytes
    && shape.matchBytes + Shape(rest).matchBytes == Shape(b).matchBytes
  }

  lemma WalkBegins(c: seq<byte>, b: Block)
    ensures LegalBlock(b) && c == Encode(b) ==> Walked(c, 0, b, b, BlockShape(0, 0, 0)) && c != []
  {
    assert c[0..] == c;
  }

  lemma WalkedMore(c: seq<byte>, pos: nat, b: Block, rest: Block, shape: BlockShape)
    requires Walked(c, pos, b, rest, shape)
    ensures pos < |c|
  {
  }

  /** At a sequence the walk reads that sequence's lengths. */
  lemma WalkSequence(c: seq<byte>, pos: nat, b: Block, rest: Block, shape: BlockShape)
    requires Walked(c, pos, b, rest, shape) && rest.sequences != []
    ensures pos < |c|
    ensures var s, r := rest.sequences[0], ReadSequence(c, pos);
            && r.Reading? && r.litLen == |s.literals| && r.field + MIN_MATCH == s.matchLen && r.litAt + r.litLen + 2 <= |c|
            && r.next <= |c|
            && Walked(c, r.next, b, Rest(rest),
                      BlockShape(shape.sequences + 1, shape.literalBytes + r.litLen, shape.matchBytes + r.field + MIN_MATCH))
  {
    var s := rest.sequences[0];
    var e := EncodeSequence(s) + Encode(Rest(rest));
    var next := pos + |EncodeSequence(s)|;
    assert c[pos..next] == c[pos..][..|EncodeSequence(s)|] == e[..|EncodeSequence(s)|];
    assert c[next..] == c[pos..][|EncodeSequence(s)|..] == e[|EncodeSequence(s)|..];
    SequenceInverse(c, pos, s);
  }

  /** At the tail it reads the run that ends the block. */
  lemma WalkTail(c: seq<byte>, pos: nat, rest: Block)
    requires pos <= |c| && LegalBlock(rest) && c[pos..] == Encode(rest) && rest.sequences == []
    ensures pos < |c|
    ensures var f := ReadLength(c, pos + 1, c[pos] / 16);
            f.Field? && f.value == |rest.tail| && f.next + f.value == |c|
  {
    assert c[pos..pos + |Encode(rest)|] == c[pos..];
    var cap := |rest.tail| + 1;
    TheOnlyTail(c, cap, pos, 0, rest.tail, rest.nibble);
    TailIsRest(c, cap, pos, 0);
    ReadLengthEnds(c, pos + 1, c[pos] / 16);
  }

  /** One turn of the walk, in the fields it reads. */
  lemma WalkStep(c: seq<byte>, pos: nat, b: Block, rest: Block, shape: BlockShape)
    requires Walked(c, pos, b, rest, shape)
    ensures pos < |c|
    ensures var f := ReadLength(c, pos + 1, c[pos] / 16);
            && f.Field? && f.next + f.value <= |c|
            && (rest.sequences == [] ==> f.next + f.value == |c| && shape.(literalBytes := shape.literalBytes + f.value) == Shape(b))
            && (rest.sequences != [] ==>
                  && f.next + f.value + 2 <= |c|
                  && var g := ReadLength(c, f.next + f.value + 2, c[pos] % 16);
                     && g.Field?
                     && Walked(c, g.next, b, Rest(rest),
                               BlockShape(shape.sequences + 1, shape.literalBytes + f.value, shape.matchBytes + g.value + MIN_MATCH)))
  {
    if rest.sequences == [] {
      WalkTail(c, pos, rest);
    } else {
      WalkSequence(c, pos, b, rest, shape);
    }
  }

  /** Total a block's sequences, literal bytes and match bytes. On the encoding
      of any block, and so on every stream the parser accepts, the totals are
      that block's; the answer says whether they come to `outBytes`. */
  method WalkBlock(c: seq<byte>, outBytes: nat, ghost b: Block) returns (ok: bool, shape: BlockShape)
    ensures LegalBlock(b) && c == Encode(b) ==> shape == Shape(b) && (ok <==> OutBytes(b) == outBytes)
  {
    hide Encode, EncodeSequence, EncodeTail, ReadLength, ReadSequence, LengthCode, Walked;
    shape := BlockShape(0, 0, 0);
    ok := false;
    ghost var encoded := LegalBlock(b) && c == Encode(b);
    ghost var rest := b;
    var pos := 0;
    WalkBegins(c, b);
    while pos < |c|
      invariant pos <= |c|
      invariant encoded ==> pos < |c| && Walked(c, pos, b, rest, shape)
      decreases |c| - pos
    {
      if encoded {
        WalkStep(c, pos, b, rest, shape);
      }
      var token := c[pos];
      var found, lit, match';
      found, lit, pos := WalkLength(c, pos + 1, token / 16);
      if !found || |c| - pos < lit {
        return;
      }
      shape := shape.(literalBytes := shape.literalBytes + lit);
      pos := pos + lit;
      if pos == |c| {
        break;
      }
      if |c| - pos < 2 {
        return;
      }
      found, match', pos := WalkLength(c, pos + 2, token % 16);
      if !found {
        return;
      }
      shape := shape.(sequences := shape.sequences + 1, matchBytes := shape.matchBytes + match' + MIN_MATCH);
      if encoded {
        rest := Rest(rest);
        WalkedMore(c, pos, b, rest, shape);
      }
    }
    ok := shape.literalBytes + shape.matchBytes == outBytes;
  }
}
