/** The sequential Snappy executor and the benchmark's stream builders. */
module SnappyTwin {
  import opened Bits
  import opened Cudec
  import opened Lz77
  import opened SnappyFormat
  import opened SnappyBlock
  import opened DecodeSequences

  function After(es: seq<Element>, r: Reading): Reading {
    match r
    case Elements(rest) => Elements(es + rest)
    case Fails(why) => Fails(why)
  }

  lemma AfterPrepend(es: seq<Element>, e: Element, r: Reading)
    ensures After(es, Prepend(e, r)) == After(es + [e], r)
  {
    if r.Elements? { assert es + ([e] + r.es) == (es + [e]) + r.es; }
  }

  /** Execute every element of a stream. The bounds the driver re-checks always
      hold and its fuel is never spent; it accepts exactly the streams that
      parse, produces exactly the declared length, and a refusal names the rung
      the stream failed. */
  method SnappyTwinDrive(src: seq<byte>, capacity: nat)
    returns (status: Status, bytes: seq<byte>, reject: SnappyReject)
    ensures match ReadStream(src, capacity)
            case Elements(es) =>
              && status == Okay && Plays(0, es) && bytes == Play([], es)
              && ReadGroups(src, 0).Preamble? && |bytes| == ReadGroups(src, 0).declared
            case Fails(why) => status == StatusOf(why) && status != Okay && bytes == [] && reject == why
    ensures status == OutputTooSmall <==> ReadGroups(src, 0).Preamble? && ReadGroups(src, 0).declared > capacity
    ensures status == Okay || status == OutputTooSmall || status == CorruptInput
  {
    hide ReadStream, ReadGroups, Play, Plays, Parse, PlayOne, CopyMatch;
    bytes := [];
    var out := new byte[capacity](_ => 0);
    var parser := new SnappyParser(src, capacity);
    ghost var goal := ReadStream(src, capacity);
    var fuel: nat := |src| + 2;
    ghost var es: seq<Element> := [];
    DriveBegins(goal);
    while true
      invariant fresh(parser) && fresh(out) && out.Length == capacity
      invariant parser.Valid() && parser.src == src && parser.dstCapacity == capacity && !parser.finished
      invariant goal == After(es, parser.Ahead())
      invariant Plays(0, es) && out[..parser.dstPos] == Play([], es)
      invariant parser.begun ==> parser.srcPos <= |src|
      invariant fuel + parser.srcPos >= |src| + 2 && (!parser.begun ==> parser.srcPos == 0)
      decreases |src| - parser.srcPos
    {
      if fuel == 0 {
        assert false;
      }
      fuel := fuel - 1;
      ghost var d := if parser.begun then parser.dstPos else 0;
      assert out[..d] == Play([], es);
      var done, q;
      status, done, q := parser.Next();
      reject := parser.reject;
      if status != Okay {
        DriveRefused(src, capacity, reject);
        return;
      }
      if done {
        DriveEnds(src, capacity, es);
        DriveFits(src, capacity);
        bytes := out[..parser.dstPos];
        return;
      }
      assert q.literalsDst + q.literalsLen <= parser.dstPos <= parser.declared <= capacity
             && q.literalsSrc + q.literalsLen <= parser.srcPos <= |src| && q.matchDst + q.matchLen <= parser.dstPos
             && (q.matchLen == 0 || q.matchSrc < q.matchDst);
      ghost var e := parser.HandedOut(q);
      AfterPrepend(es, e, parser.Ahead());
      PlayElement(src, out, q, es, e);
      es := es + [e];
    }
  }

  /** One element of the stream, played behind those before it. */
  method PlayElement(src: seq<byte>, out: array<byte>, q: DecodeSequence, ghost es: seq<Element>, ghost e: Element)
    requires q.literalsSrc + q.literalsLen <= |src| && q.literalsDst + q.literalsLen <= out.Length && q.matchDst + q.matchLen <= out.Length
    requires q.literalsLen == 0 <==> q.matchLen > 0
    requires q.literalsLen > 0 ==> e == Element.Literal(src[q.literalsSrc..q.literalsSrc + q.literalsLen])
    requires q.matchLen > 0 ==> q.matchSrc < q.matchDst && e == Copy(q.matchDst - q.matchSrc, q.matchLen)
    requires Plays(0, es) && out[..Begin(q)] == Play([], es)
    modifies out
    ensures Plays(0, es + [e]) && out[..End(q)] == Play([], es + [e])
  {
    hide Play, Plays, CopyMatch;
    ghost var played := Play([], es);
    ExecuteSequence(src, out, q);
    assert played + src[q.literalsSrc..q.literalsSrc] == played;
    DriveOne(src, es, e, q, |played|);
  }

  lemma DriveBegins(r: Reading)
    ensures After([], r) == r && Plays(0, []) && Play([], []) == []
  {
    if r.Elements? { assert [] + r.es == r.es; }
  }

  lemma DriveEnds(src: seq<byte>, cap: nat, es: seq<Element>)
    requires ReadStream(src, cap) == After(es, Elements([]))
    ensures ReadStream(src, cap) == Elements(es) && Plays(0, es)
    ensures ReadGroups(src, 0).Preamble? && |Play([], es)| == ReadGroups(src, 0).declared
  {
    assert es + [] == es;
    var pre := ReadGroups(src, 0);
    DeclaredIsBounded(src, 0);
    ParsedPlays(src, pre.size, 0, pre.declared);
  }

  /** Only a declaration past the capacity is too large. */
  lemma DriveRefused(src: seq<byte>, cap: nat, why: SnappyReject)
    requires ReadStream(src, cap) == Fails(why) && why != NoReject
    ensures StatusOf(why) == if ReadGroups(src, 0).Preamble? && ReadGroups(src, 0).declared > cap then OutputTooSmall else CorruptInput
  {
    hide ReadGroups;
    GroupsNeverOver(src, 0);
    var pre := ReadGroups(src, 0);
    if pre.Preamble? && pre.declared <= cap {
      ParseNeverOver(src, pre.size, 0, pre.declared);
    }
  }

  lemma DriveFits(src: seq<byte>, cap: nat)
    requires ReadStream(src, cap).Elements?
    ensures ReadGroups(src, 0).Preamble? ==> ReadGroups(src, 0).declared <= cap
  {
    hide ReadGroups, Parse;
  }

  lemma {:induction false} GroupsNeverOver(src: seq<byte>, g: nat)
    requires g < VARINT_GROUPS
    ensures ReadGroups(src, g).BadPreamble? ==> ReadGroups(src, g).why != DeclaredOverCapacity
    decreases VARINT_GROUPS - g
  {
    if g < |src| && g + 1 < VARINT_GROUPS && src[g] >= VARINT_CONTINUE { GroupsNeverOver(src, g + 1); }
  }

  lemma {:induction false} ParseNeverOver(src: seq<byte>, p: nat, d: nat, declared: nat)
    ensures Parse(src, p, d, declared) != Fails(DeclaredOverCapacity)
    decreases |src| - p
  {
    hide Judge, TheElement, NextElement;
    if p < |src| && Judge(src, p, d, declared) == NoReject {
      ParseNeverOver(src, NextElement(src, p), d + TheElement(src, p).Length(), declared);
    }
  }

  lemma DriveOne(src: seq<byte>, es: seq<Element>, e: Element, q: DecodeSequence, d: nat)
    requires Plays(0, es) && |Play([], es)| == d && Begin(q) == d
    requires q.literalsLen == 0 <==> q.matchLen > 0
    requires q.literalsLen > 0 ==> q.literalsSrc + q.literalsLen <= |src| && e == Element.Literal(src[q.literalsSrc..q.literalsSrc + q.literalsLen])
    requires q.matchLen > 0 ==> q.matchSrc < q.matchDst && e == Copy(q.matchDst - q.matchSrc, q.matchLen)
    ensures Plays(0, es + [e])
    ensures q.literalsLen > 0 ==> Play([], es + [e]) == Play([], es) + e.bytes
    ensures q.matchLen > 0 ==> Play([], es + [e]) == CopyMatch(Play([], es), e.offset, e.length)
  {
    hide Play, Plays;
    PlayLength(es);
    PlayOneMore([], es, e);
  }

  lemma PlayLength(es: seq<Element>)
    requires Plays(0, es)
    ensures |Play([], es)| == Bytes(es)
  {
  }

  // ----- the stream builders -----

  const SEED: byte := 0xA5
  const MIN_BYTES := 256
  const MIN_COPY_OUTPUT := 4

  /** The preamble's writer. */
  method AppendVarint32(value: nat, out: seq<byte>) returns (out': seq<byte>)
    ensures out' == out + Varint(value)
  {
    out' := out;
    var v: nat := value;
    while v >= VARINT_CONTINUE
      invariant out' + Varint(v) == out + Varint(value)
    {
      assert out' + Varint(v) == (out' + [v % 0x80 + VARINT_CONTINUE]) + Varint(v / 0x80);
      out' := out' + [v % 0x80 + VARINT_CONTINUE];
      v := v / 0x80;
    }
    out' := out' + [v];
  }

  /** The preamble read back is the value written, below 2^32. */
  method VarintRoundTrip(value: nat) returns (declared: nat, size: nat)
    requires value < 0x1_0000_0000
    ensures declared == value && size == |Varint(value)|
  {
    var w := AppendVarint32(value, []);
    assert [] + Varint(value) == Varint(value);
    GroupBoundIs32Bits();
    assert w[0..0 + |w|] == w;
    VarintInverse(w, 0, value);
    var reject;
    declared, size, reject := SnappyDeclaredLength(w);
  }

  lemma {:induction false} SpellOneMore(s: seq<Spelled>, x: Spelled)
    requires CanSpellAll(s) && CanSpell(x.e, x.how)
    ensures CanSpellAll(s + [x]) && SpellAll(s + [x]) == SpellAll(s) + Spell(x.e, x.how)
    ensures Unspelled(s + [x]) == Unspelled(s) + [x.e]
  {
    hide Spell, CanSpell;
    if s == [] {
      assert [x][1..] == [] && s + [x] == [x];
    } else {
      assert (s + [x])[1..] == s[1..] + [x] && (s + [x])[0] == s[0];
      SpellOneMore(s[1..], x);
      assert (s + [x])[|s|] == x;
    }
  }

  /** `s`, spelled behind the preamble, plays `n` copies of the seed. */
  ghost predicate Building(s: seq<Spelled>, preamble: seq<byte>, c: seq<byte>, n: nat) {
    && CanSpellAll(s) && c == preamble + SpellAll(s)
    && Plays(0, Unspelled(s)) && Play([], Unspelled(s)) == Repeat(SEED, n)
  }

  lemma BuildingBegins(preamble: seq<byte>)
    ensures Building([], preamble, preamble, 0)
  {
    assert Repeat(SEED, 0) == [] && preamble + [] == preamble;
  }

  lemma BuildLiteral(s: seq<Spelled>, preamble: seq<byte>, c: seq<byte>, n: nat, k: nat)
    requires Building(s, preamble, c, n) && 1 <= k <= 60
    ensures Building(s + [Spelled(Element.Literal(Repeat(SEED, k)), Inline)], preamble, c + [4 * (k - 1)] + Repeat(SEED, k), n + k)
  {
    hide Play, Plays;
    var e := Element.Literal(Repeat(SEED, k));
    PlayLength(Unspelled(s));
    SpellOneMore(s, Spelled(e, Inline));
    PlayOneMore([], Unspelled(s), e);
    assert Repeat(SEED, n) + Repeat(SEED, k) == Repeat(SEED, n + k);
    assert Spell(e, Inline) == [4 * (k - 1)] + Repeat(SEED, k);
    assert c + [4 * (k - 1)] + Repeat(SEED, k) == preamble + (SpellAll(s) + Spell(e, Inline));
  }

  lemma ShortestCopy()
    ensures CanSpell(Copy(1, 4), Copy1) && Spell(Copy(1, 4), Copy1) == [0x01, 0x01]
  {
    assert Little(1, 1) == [1] by { assert Little(0, 0) == []; }
  }

  lemma BuildCopy(s: seq<Spelled>, preamble: seq<byte>, c: seq<byte>, n: nat)
    requires Building(s, preamble, c, n) && n >= 1
    ensures Building(s + [Spelled(Copy(1, 4), Copy1)], preamble, c + [0x01, 0x01], n + 4)
  {
    hide Play, Plays, Spell, CanSpell, CopyMatch, SpellAll, Unspelled;
    ShortestCopy();
    PlayLength(Unspelled(s));
    SpellOneMore(s, Spelled(Copy(1, 4), Copy1));
    PlayOneMore([], Unspelled(s), Copy(1, 4));
    CopyOfConstant(SEED, n, 4);
    assert c + [0x01, 0x01] == preamble + (SpellAll(s) + [0x01, 0x01]);
  }

  lemma BuildingEnds(s: seq<Spelled>, c: seq<byte>, n: nat)
    requires Building(s, Varint(n), c, n) && n < 0x1_0000_0000
    ensures forall cap: nat :: cap >= n ==> ReadStream(c, cap) == Elements(Unspelled(s))
  {
    hide Play, Plays, SpellAll;
    PlayLength(Unspelled(s));
    forall cap: nat | cap >= n ensures ReadStream(c, cap) == Elements(Unspelled(s)) {
      StreamRoundTrip(s, cap);
    }
  }

  /** One literal, then four-byte copies at offset one, then what is left. */
  method BuildWorstDensityBlock(outBytes: nat)
    returns (ok: bool, original: seq<byte>, compressed: seq<byte>, elements: nat, ghost es: seq<Element>)
    ensures ok <==> outBytes >= MIN_BYTES
    ensures ok ==> original == Repeat(SEED, outBytes) && elements == |es| && Plays(0, es) && Play([], es) == original
    ensures ok && outBytes < 0x1_0000_0000 ==> forall cap: nat :: cap >= outBytes ==> ReadStream(compressed, cap) == Elements(es)
  {
    hide Building, Play, Plays, ReadStream;
    original, compressed, elements, es := [], [], 0, [];
    if outBytes < MIN_BYTES {
      return false, original, compressed, elements, es;
    }
    original := Repeat(SEED, outBytes);
    compressed := AppendVarint32(outBytes, []);
    assert compressed == Varint(outBytes);
    ghost var s: seq<Spelled> := [];
    BuildingBegins(compressed);
    BuildLiteral(s, Varint(outBytes), compressed, 0, 1);
    assert Repeat(SEED, 1) == [SEED];
    compressed := compressed + [0x00] + [SEED];
    s := s + [Spelled(Element.Literal(Repeat(SEED, 1)), Inline)];
    var produced := 1;
    elements := 1;
    while produced + MIN_COPY_OUTPUT <= outBytes
      invariant 1 <= produced <= outBytes && elements == |s|
      invariant Building(s, Varint(outBytes), compressed, produced)
    {
      BuildCopy(s, Varint(outBytes), compressed, produced);
      compressed := compressed + [0x01, 0x01];
      s := s + [Spelled(Copy(1, 4), Copy1)];
      produced := produced + MIN_COPY_OUTPUT;
      elements := elements + 1;
    }
    var tail := outBytes - produced;
    if tail != 0 {
      BuildLiteral(s, Varint(outBytes), compressed, produced, tail);
      compressed := compressed + [4 * (tail - 1)] + Repeat(SEED, tail);
      s := s + [Spelled(Element.Literal(Repeat(SEED, tail)), Inline)];
      elements := elements + 1;
    }
    BuiltPlays(s, Varint(outBytes), compressed, outBytes);
    if outBytes < 0x1_0000_0000 {
      BuildingEnds(s, compressed, outBytes);
    }
    es := Unspelled(s);
    ok := true;
  }

  lemma BuiltPlays(s: seq<Spelled>, preamble: seq<byte>, c: seq<byte>, n: nat)
    requires Building(s, preamble, c, n)
    ensures Plays(0, Unspelled(s)) && Play([], Unspelled(s)) == Repeat(SEED, n)
  {
  }

  /** One length-one literal per output byte. */
  method BuildWorstLiteralBlock(outBytes: nat)
    returns (ok: bool, original: seq<byte>, compressed: seq<byte>, elements: nat, ghost es: seq<Element>)
    ensures ok <==> outBytes >= MIN_BYTES
    ensures ok ==> original == Repeat(SEED, outBytes) && elements == |es| && Plays(0, es) && Play([], es) == original
    ensures ok && outBytes < 0x1_0000_0000 ==> forall cap: nat :: cap >= outBytes ==> ReadStream(compressed, cap) == Elements(es)
  {
    hide Building, Play, Plays, ReadStream;
    original, compressed, elements, es := [], [], 0, [];
    if outBytes < MIN_BYTES {
      return false, original, compressed, elements, es;
    }
    original := Repeat(SEED, outBytes);
    compressed := AppendVarint32(outBytes, []);
    assert compressed == Varint(outBytes);
    ghost var s: seq<Spelled> := [];
    BuildingBegins(compressed);
    assert Repeat(SEED, 1) == [SEED];
    for i := 0 to outBytes
      invariant |s| == i && Building(s, Varint(outBytes), compressed, i)
    {
      BuildLiteral(s, Varint(outBytes), compressed, i, 1);
      compressed := compressed + [0x00] + [SEED];
      s := s + [Spelled(Element.Literal(Repeat(SEED, 1)), Inline)];
    }
    BuiltPlays(s, Varint(outBytes), compressed, outBytes);
    if outBytes < 0x1_0000_0000 {
      BuildingEnds(s, compressed, outBytes);
    }
    elements, es := outBytes, Unspelled(s);
    ok := true;
  }
}
