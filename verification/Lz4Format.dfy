/** The LZ4 block format as an encoding, and the end-of-block rules as
    conditions on where a sequence lies.

    A block is a list of sequences and a literals-only tail. `Parses` says that a
    stream is exactly the encoding of a block and that every margin the decoder
    enforces is respected. */
module Lz4Format {
  import opened Bits
  import opened Lz77

  const MIN_TRAILING_SLACK_DST := 12
  const MIN_TRAILING_SLACK_SRC := 8
  const LAST_LITERALS := 5
  const RUN_MASK := 15
  const MIN_MATCH := 4
  const LITERAL_READ_MARGIN := RUN_MASK
  const MATCH_READ_MARGIN := LAST_LITERALS - 1

  datatype Sequence = Sequence(literals: seq<byte>, offset: nat, matchLen: nat)

  /** `nibble` is the half of the last token that no decoder reads. */
  datatype Block = Block(sequences: seq<Sequence>, tail: seq<byte>, nibble: nat)

  // ----- length fields -----

  function Nibble(v: nat): (n: nat)
    ensures n <= RUN_MASK && (n == RUN_MASK <==> v >= RUN_MASK)
  {
    if v < RUN_MASK then v else RUN_MASK
  }

  function Extension(v: nat): (e: seq<byte>)
    ensures |e| >= 1
  {
    if v >= 255 then [255] + Extension(v - 255) else [v]
  }

  /** The bytes behind the nibble, if the nibble is saturated. */
  function LengthCode(v: nat): seq<byte> {
    if v >= RUN_MASK then Extension(v - RUN_MASK) else []
  }

  /** A field read back: its value and where the reading ends. */
  datatype Field = Field(value: nat, next: nat) | NoField

  function ReadExtension(src: seq<byte>, p: nat): Field
    decreases |src| - p
  {
    if p >= |src| then NoField
    else if src[p] < 255 then Field(src[p], p + 1)
    else
      match ReadExtension(src, p + 1)
      case Field(v, next) => Field(v + 255, next)
      case NoField => NoField
  }

  function ReadLength(src: seq<byte>, p: nat, nibble: nat): Field {
    if nibble < RUN_MASK then Field(nibble, p)
    else
      match ReadExtension(src, p)
      case Field(v, next) => Field(v + RUN_MASK, next)
      case NoField => NoField
  }

  /** Reading an extension inverts writing it, and nothing else reads as it. */
  lemma {:induction false} ExtensionInverse(src: seq<byte>, p: nat, v: nat)
    ensures At(src, p, Extension(v)) <==> ReadExtension(src, p) == Field(v, p + |Extension(v)|)
    decreases |src| - p
  {
    if v >= 255 {
      AtConcat(src, p, [255], Extension(v - 255));
      if p < |src| {
        ExtensionInverse(src, p + 1, v - 255);
      }
    }
  }

  lemma {:induction false} ReadIsExtension(src: seq<byte>, p: nat)
    requires ReadExtension(src, p).Field?
    ensures var f := ReadExtension(src, p); p < f.next == p + |Extension(f.value)| <= |src|
    decreases |src| - p
  {
    if src[p] == 255 { ReadIsExtension(src, p + 1); }
  }

  lemma LengthInverse(src: seq<byte>, p: nat, v: nat, nibble: nat)
    requires nibble <= RUN_MASK
    ensures nibble == Nibble(v) && At(src, p, LengthCode(v)) && p <= |src|
       <==> ReadLength(src, p, nibble) == Field(v, p + |LengthCode(v)|) && p <= |src|
  {
    if v >= RUN_MASK { ExtensionInverse(src, p, v - RUN_MASK); }
  }

  lemma ReadLengthEnds(src: seq<byte>, p: nat, nibble: nat)
    requires nibble <= RUN_MASK && p <= |src| && ReadLength(src, p, nibble).Field?
    ensures var f := ReadLength(src, p, nibble); p <= f.next == p + |LengthCode(f.value)| <= |src| && nibble == Nibble(f.value)
  {
    if nibble == RUN_MASK { ReadIsExtension(src, p); }
  }

  // ----- sequences and blocks -----

  predicate Legal(s: Sequence) {
    1 <= s.offset <= 0xFFFF && s.matchLen >= MIN_MATCH
  }

  function Head(s: Sequence): seq<byte>
    requires Legal(s)
  {
    [16 * Nibble(|s.literals|) + Nibble(s.matchLen - MIN_MATCH)] + LengthCode(|s.literals|)
  }

  function EncodeSequence(s: Sequence): (e: seq<byte>)
    requires Legal(s)
    ensures |e| >= 3
  {
    Head(s) + (s.literals + ([s.offset % 256, s.offset / 256] + LengthCode(s.matchLen - MIN_MATCH)))
  }

  function EncodeTail(tail: seq<byte>, nibble: nat): seq<byte>
    requires nibble <= RUN_MASK
  {
    [16 * Nibble(|tail|) + nibble] + LengthCode(|tail|) + tail
  }

  predicate LegalBlock(b: Block) {
    b.nibble <= RUN_MASK && forall i :: 0 <= i < |b.sequences| ==> Legal(b.sequences[i])
  }

  function Rest(b: Block): Block
    requires b.sequences != []
  {
    b.(sequences := b.sequences[1..])
  }

  function Encode(b: Block): (e: seq<byte>)
    requires LegalBlock(b)
    ensures |e| >= 1
    decreases |b.sequences|
  {
    if b.sequences == [] then EncodeTail(b.tail, b.nibble)
    else EncodeSequence(b.sequences[0]) + Encode(Rest(b))
  }

  /** What a block decodes to, behind what `out` already holds. */
  ghost function Output(out: seq<byte>, b: Block): (r: seq<byte>)
    requires Reaches(|out|, b.sequences)
    ensures |r| == |out| + OutBytes(b) && r[..|out|] == out
    decreases |b.sequences|
  {
    if b.sequences == [] then out + b.tail
    else
      var s := b.sequences[0];
      var r := Output(CopyMatch(out + s.literals, s.offset, s.matchLen), Rest(b));
      assert r[..|out + s.literals|] == r[..|out + s.literals| + s.matchLen][..|out + s.literals|];
      assert r[..|out|] == r[..|out + s.literals|][..|out|];
      r
  }

  /** No match reaches before the start of the output. */
  ghost predicate Reaches(d: nat, sequences: seq<Sequence>)
    decreases |sequences|
  {
    sequences == []
    || var s := sequences[0];
       1 <= s.offset <= d + |s.literals| && Reaches(d + |s.literals| + s.matchLen, sequences[1..])
  }

  function SequenceBytes(sequences: seq<Sequence>): nat
    decreases |sequences|
  {
    if sequences == [] then 0 else |sequences[0].literals| + sequences[0].matchLen + SequenceBytes(sequences[1..])
  }

  function OutBytes(b: Block): nat {
    SequenceBytes(b.sequences) + |b.tail|
  }

  // ----- the margins -----

  /** `s` is encoded at `p`, where `d` bytes are out, and keeps clear of both ends. */
  ghost predicate SequenceAt(src: seq<byte>, cap: nat, p: nat, d: nat, s: Sequence) {
    && Legal(s) && At(src, p, EncodeSequence(s))
    && var end := p + |Head(s)|;
       var next := p + |EncodeSequence(s)|;
       && (|s.literals| >= RUN_MASK ==> end + LITERAL_READ_MARGIN <= |src|)
       && d + |s.literals| + MIN_TRAILING_SLACK_DST <= cap
       && end + |s.literals| + MIN_TRAILING_SLACK_SRC <= |src|
       && s.offset <= d + |s.literals|
       && (s.matchLen - MIN_MATCH >= RUN_MASK ==> next + MATCH_READ_MARGIN <= |src|)
       && d + |s.literals| + s.matchLen + LAST_LITERALS <= cap
  }

  /** The literals-only tail is encoded at `p`, and the stream ends with it. */
  ghost predicate TailAt(src: seq<byte>, cap: nat, p: nat, d: nat, tail: seq<byte>, nibble: nat) {
    && nibble <= RUN_MASK && At(src, p, EncodeTail(tail, nibble)) && p + |EncodeTail(tail, nibble)| == |src|
    && d + |tail| <= cap && (cap == 0 ==> nibble == 0)
  }

  ghost predicate Parses(src: seq<byte>, cap: nat, p: nat, d: nat, b: Block)
    decreases |b.sequences|
  {
    if b.sequences == [] then TailAt(src, cap, p, d, b.tail, b.nibble)
    else
      var s := b.sequences[0];
      && SequenceAt(src, cap, p, d, s)
      && Parses(src, cap, p + |EncodeSequence(s)|, d + |s.literals| + s.matchLen, Rest(b))
  }

  ghost predicate Accepted(src: seq<byte>, cap: nat, b: Block) {
    Parses(src, cap, 0, 0, b)
  }

  // ----- reading a sequence back -----

  /** Where the parts of a sequence lie, read off the stream. */
  datatype Reading = Reading(token: nat, litAt: nat, litLen: nat, offset: nat, field: nat, next: nat) | Unreadable

  function ReadSequence(src: seq<byte>, p: nat): Reading {
    if p >= |src| then Unreadable
    else
      match ReadLength(src, p + 1, src[p] / 16)
      case NoField => Unreadable
      case Field(n, at) =>
        if at + n + 2 > |src| then Unreadable
        else
          match ReadLength(src, at + n + 2, src[p] % 16)
          case NoField => Unreadable
          case Field(m, next) => Reading(src[p], at, n, (src[at + n] as nat) + 256 * (src[at + n + 1] as nat), m, next)
  }

  lemma TokenHalves(a: nat, b: nat)
    requires a <= 15 && b <= 15
    ensures 16 * a + b < 256 && (16 * a + b) / 16 == a && (16 * a + b) % 16 == b
  {
  }

  lemma OffsetBytes(a: nat, b: nat)
    requires a < 256 && b < 256
    ensures (a + 256 * b) % 256 == a && (a + 256 * b) / 256 == b
  {
  }

  ghost predicate Reads(src: seq<byte>, p: nat, s: Sequence) {
    && p < |src|
    && var r := ReadSequence(src, p);
       && r.Reading? && r.litLen == |s.literals| && r.offset == s.offset && r.field + MIN_MATCH == s.matchLen
       && r.litAt + r.litLen <= |src| && src[r.litAt..r.litAt + r.litLen] == s.literals
  }

  /** The four parts of an encoded sequence, each in its place. */
  ghost predicate Parts(src: seq<byte>, p: nat, s: Sequence)
    requires Legal(s)
  {
    var field := s.matchLen - MIN_MATCH;
    var at := p + |Head(s)|;
    && p < |src| && src[p] == 16 * Nibble(|s.literals|) + Nibble(field)
    && At(src, p + 1, LengthCode(|s.literals|))
    && At(src, at, s.literals)
    && at + |s.literals| + 2 <= |src|
    && src[at + |s.literals|] == s.offset % 256 && src[at + |s.literals| + 1] == s.offset / 256
    && At(src, at + |s.literals| + 2, LengthCode(field))
  }

  lemma EncodedParts(src: seq<byte>, p: nat, s: Sequence)
    requires Legal(s)
    ensures At(src, p, EncodeSequence(s)) <==> Parts(src, p, s)
  {
    hide At, LengthCode, Nibble;
    var field := s.matchLen - MIN_MATCH;
    var token: byte := 16 * Nibble(|s.literals|) + Nibble(field);
    var lo: byte, hi: byte := s.offset % 256, s.offset / 256;
    var at := p + |Head(s)|;
    AtConcat(src, p, Head(s), s.literals + ([lo, hi] + LengthCode(field)));
    AtConcat(src, p, [token], LengthCode(|s.literals|));
    AtOne(src, p, token);
    AtConcat(src, at, s.literals, [lo, hi] + LengthCode(field));
    AtConcat(src, at + |s.literals|, [lo, hi], LengthCode(field));
    AtTwo(src, at + |s.literals|, lo, hi);
  }

  lemma PartsRead(src: seq<byte>, p: nat, s: Sequence)
    requires Legal(s)
    ensures Parts(src, p, s) ==> Reads(src, p, s)
    ensures Reads(src, p, s) ==>
              var r := ReadSequence(src, p);
              r.litAt == p + |Head(s)| && r.next == p + |EncodeSequence(s)| && r.litAt + r.litLen + 2 <= |src|
  {
    hide LengthCode, ReadLength;
    var field := s.matchLen - MIN_MATCH;
    var at := p + |Head(s)|;
    TokenHalves(Nibble(|s.literals|), Nibble(field));
    if p < |src| {
      LengthInverse(src, p + 1, |s.literals|, src[p] / 16);
      if ReadLength(src, p + 1, src[p] / 16).Field? { ReadLengthEnds(src, p + 1, src[p] / 16); }
      if at + |s.literals| + 2 <= |src| {
        LengthInverse(src, at + |s.literals| + 2, field, src[p] % 16);
        if ReadLength(src, at + |s.literals| + 2, src[p] % 16).Field? {
          ReadLengthEnds(src, at + |s.literals| + 2, src[p] % 16);
        }
      }
    }
  }

  lemma ReadParts(src: seq<byte>, p: nat, s: Sequence)
    requires Legal(s) && Reads(src, p, s)
    ensures Parts(src, p, s)
  {
    hide LengthCode, ReadLength;
    PartsRead(src, p, s);
    var field := s.matchLen - MIN_MATCH;
    var at := p + |Head(s)|;
    LengthInverse(src, p + 1, |s.literals|, src[p] / 16);
    ReadLengthEnds(src, p + 1, src[p] / 16);
    LengthInverse(src, at + |s.literals| + 2, field, src[p] % 16);
    ReadLengthEnds(src, at + |s.literals| + 2, src[p] % 16);
    OffsetBytes(src[at + |s.literals|], src[at + |s.literals| + 1]);
  }

  /** A sequence is what its encoding reads as, and only it. */
  lemma SequenceInverse(src: seq<byte>, p: nat, s: Sequence)
    requires Legal(s)
    ensures At(src, p, EncodeSequence(s)) <==> Reads(src, p, s)
    ensures Reads(src, p, s) ==>
              var r := ReadSequence(src, p);
              r.litAt == p + |Head(s)| && r.next == p + |EncodeSequence(s)| && r.litAt + r.litLen + 2 <= |src|
  {
    EncodedParts(src, p, s);
    PartsRead(src, p, s);
    if Reads(src, p, s) { ReadParts(src, p, s); }
  }

  // ----- the one sequence, or the one tail, a position can hold -----

  ghost predicate Margins(src: seq<byte>, cap: nat, d: nat, r: Reading)
    requires r.Reading?
  {
    && (r.litLen >= RUN_MASK ==> r.litAt + LITERAL_READ_MARGIN <= |src|)
    && d + r.litLen + MIN_TRAILING_SLACK_DST <= cap
    && r.litAt + r.litLen + MIN_TRAILING_SLACK_SRC <= |src|
    && 1 <= r.offset <= d + r.litLen
    && (r.field >= RUN_MASK ==> r.next + MATCH_READ_MARGIN <= |src|)
    && d + r.litLen + r.field + MIN_MATCH + LAST_LITERALS <= cap
  }

  ghost predicate HasSequence(src: seq<byte>, cap: nat, p: nat, d: nat) {
    ReadSequence(src, p).Reading? && Margins(src, cap, d, ReadSequence(src, p))
  }

  ghost function TheSequence(src: seq<byte>, p: nat): Sequence
    requires ReadSequence(src, p).Reading?
  {
    var r := ReadSequence(src, p);
    Sequence(if r.litAt + r.litLen <= |src| then src[r.litAt..r.litAt + r.litLen] else [], r.offset, r.field + MIN_MATCH)
  }

  lemma ReadingBounds(src: seq<byte>, p: nat)
    requires ReadSequence(src, p).Reading?
    ensures var r := ReadSequence(src, p);
            && p < r.litAt && r.litAt + r.litLen + 2 <= r.next <= |src| && r.offset <= 0xFFFF
            && |TheSequence(src, p).literals| == r.litLen
  {
    var r := ReadSequence(src, p);
    ReadLengthEnds(src, p + 1, src[p] / 16);
    ReadLengthEnds(src, r.litAt + r.litLen + 2, src[p] % 16);
  }

  lemma TheOnlySequence(src: seq<byte>, cap: nat, p: nat, d: nat, s: Sequence)
    ensures SequenceAt(src, cap, p, d, s) <==> HasSequence(src, cap, p, d) && s == TheSequence(src, p)
    ensures SequenceAt(src, cap, p, d, s) ==>
              ReadSequence(src, p).next == p + |EncodeSequence(s)| && ReadSequence(src, p).litAt == p + |Head(s)|
  {
    hide ReadSequence, Head, EncodeSequence, At;
    if ReadSequence(src, p).Reading? { ReadingBounds(src, p); }
    if Legal(s) { SequenceInverse(src, p, s); }
    ReadingNeedsToken(src, p);
  }

  lemma ReadingNeedsToken(src: seq<byte>, p: nat)
    ensures ReadSequence(src, p).Reading? ==> p < |src|
  {
  }

  ghost predicate HasTail(src: seq<byte>, cap: nat, p: nat, d: nat) {
    && p < |src| && ReadLength(src, p + 1, src[p] / 16).Field?
    && var f := ReadLength(src, p + 1, src[p] / 16);
       f.next + f.value == |src| && d + f.value <= cap && (cap == 0 ==> src[p] == 0)
  }

  ghost function TheTail(src: seq<byte>, p: nat): seq<byte> {
    if p < |src| && ReadLength(src, p + 1, src[p] / 16).Field? && ReadLength(src, p + 1, src[p] / 16).next <= |src|
    then src[ReadLength(src, p + 1, src[p] / 16).next..] else []
  }

  lemma TheOnlyTail(src: seq<byte>, cap: nat, p: nat, d: nat, tail: seq<byte>, nibble: nat)
    ensures TailAt(src, cap, p, d, tail, nibble)
       <==> HasTail(src, cap, p, d) && tail == TheTail(src, p) && nibble == src[p] % 16
  {
    hide LengthCode, ReadLength;
    if p < |src| {
      LengthInverse(src, p + 1, |tail|, src[p] / 16);
      if ReadLength(src, p + 1, src[p] / 16).Field? { ReadLengthEnds(src, p + 1, src[p] / 16); }
    }
    if nibble <= RUN_MASK {
      var token: byte := 16 * Nibble(|tail|) + nibble;
      TokenHalves(Nibble(|tail|), nibble);
      AtConcat(src, p, [token] + LengthCode(|tail|), tail);
      AtConcat(src, p, [token], LengthCode(|tail|));
      AtOne(src, p, token);
    }
  }

  /** A position cannot hold both: what follows a sequence is more than the
      source slack a tail is told by. */
  lemma SequenceOrTail(src: seq<byte>, cap: nat, p: nat, d: nat)
    ensures !(HasSequence(src, cap, p, d) && HasTail(src, cap, p, d))
  {
  }

  // ----- parsing is a function, and inverts encoding -----

  lemma {:induction false} ParsesOneBlock(src: seq<byte>, cap: nat, p: nat, d: nat, a: Block, b: Block)
    requires Parses(src, cap, p, d, a) && Parses(src, cap, p, d, b)
    ensures a == b
    decreases |a.sequences|
  {
    hide At, Head, EncodeSequence, EncodeTail, HasSequence, HasTail, TheSequence, TheTail, Output, Reaches;
    SequenceOrTail(src, cap, p, d);
    if a.sequences != [] { TheOnlySequence(src, cap, p, d, a.sequences[0]); } else { TheOnlyTail(src, cap, p, d, a.tail, a.nibble); }
    if b.sequences != [] { TheOnlySequence(src, cap, p, d, b.sequences[0]); } else { TheOnlyTail(src, cap, p, d, b.tail, b.nibble); }
    if a.sequences != [] {
      var s := a.sequences[0];
      ParsesOneBlock(src, cap, p + |EncodeSequence(s)|, d + |s.literals| + s.matchLen, Rest(a), Rest(b));
      assert a.sequences == [s] + Rest(a).sequences && b.sequences == [s] + Rest(b).sequences;
    }
  }

  lemma {:induction false} ParsedIsEncoded(src: seq<byte>, cap: nat, p: nat, d: nat, b: Block)
    requires Parses(src, cap, p, d, b)
    ensures p <= |src| && LegalBlock(b) && src[p..] == Encode(b)
    ensures Reaches(d, b.sequences) && d + OutBytes(b) <= cap
    decreases |b.sequences|
  {
    if b.sequences != [] {
      var s := b.sequences[0];
      var next := p + |EncodeSequence(s)|;
      ParsedIsEncoded(src, cap, next, d + |s.literals| + s.matchLen, Rest(b));
      assert src[p..] == src[p..next] + src[next..];
      assert b.sequences == [s] + Rest(b).sequences;
    }
  }

  /** What an encoder must keep to: the last five bytes are literals, and the
      last match starts at least twelve bytes before the end. */
  ghost predicate Encodable(d: nat, b: Block) {
    && LegalBlock(b) && Reaches(d, b.sequences)
    && (b.sequences == [] ==> d + |b.tail| > 0 || b.nibble == 0)
    && (b.sequences != [] ==> |b.tail| >= LAST_LITERALS
                              && b.sequences[|b.sequences| - 1].matchLen + |b.tail| >= MIN_TRAILING_SLACK_DST)
  }

  lemma {:induction false} EnoughFollows(b: Block)
    requires LegalBlock(b) && b.sequences != [] && |b.tail| >= LAST_LITERALS
    requires b.sequences[|b.sequences| - 1].matchLen + |b.tail| >= MIN_TRAILING_SLACK_DST
    ensures var s := b.sequences[0];
            s.matchLen + OutBytes(Rest(b)) >= MIN_TRAILING_SLACK_DST && |Encode(Rest(b))| >= 1 + LAST_LITERALS
            && OutBytes(Rest(b)) >= LAST_LITERALS
    decreases |b.sequences|
  {
    var r := Rest(b);
    if r.sequences != [] {
      EnoughFollows(r);
      assert r.sequences[|r.sequences| - 1] == b.sequences[|b.sequences| - 1];
    }
  }

  /** Every block an encoder may write is accepted at any capacity that holds its
      output, whatever its lengths. */
  lemma {:induction false} EncodableParses(src: seq<byte>, cap: nat, p: nat, d: nat, b: Block)
    requires Encodable(d, b) && p <= |src| && src[p..] == Encode(b) && d + OutBytes(b) <= cap
    ensures Parses(src, cap, p, d, b)
    decreases |b.sequences|
  {
    if b.sequences == [] {
      assert src[p..p + |Encode(b)|] == src[p..];
    } else {
      var s := b.sequences[0];
      var next := p + |EncodeSequence(s)|;
      var e := EncodeSequence(s) + Encode(Rest(b));
      assert src[p..next] == src[p..][..|EncodeSequence(s)|] == e[..|EncodeSequence(s)|];
      assert src[next..] == src[p..][|EncodeSequence(s)|..] == e[|EncodeSequence(s)|..];
      EnoughFollows(b);
      RestEncodable(d, b);
      EncodableParses(src, cap, next, d + |s.literals| + s.matchLen, Rest(b));
      assert |src| == next + |Encode(Rest(b))|;
    }
  }

  /** And at a capacity of exactly the output, nothing else is. */
  lemma {:induction false} ParsesOnlyEncodable(src: seq<byte>, cap: nat, p: nat, d: nat, b: Block)
    requires Parses(src, cap, p, d, b) && d + OutBytes(b) == cap
    ensures Encodable(d, b)
    decreases |b.sequences|
  {
    ParsedIsEncoded(src, cap, p, d, b);
    if b.sequences != [] {
      var s, r := b.sequences[0], Rest(b);
      ParsesOnlyEncodable(src, cap, p + |EncodeSequence(s)|, d + |s.literals| + s.matchLen, r);
      if r.sequences != [] {
        assert r.sequences[|r.sequences| - 1] == b.sequences[|b.sequences| - 1];
      }
    }
  }

  lemma RestEncodable(d: nat, b: Block)
    requires Encodable(d, b) && b.sequences != []
    ensures Encodable(d + |b.sequences[0].literals| + b.sequences[0].matchLen, Rest(b))
  {
    var r := Rest(b);
    if r.sequences != [] {
      assert r.sequences[|r.sequences| - 1] == b.sequences[|b.sequences| - 1];
    }
  }
}
