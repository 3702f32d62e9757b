/** The Snappy block format: the varint preamble, the element headers in all
    their spellings, and what a run of elements means. */
module SnappyFormat {
  import opened Bits
  import opened Lz77

  const VARINT_GROUPS := 5
  const VARINT_CONTINUE := 0x80
  const VARINT_FINAL_MAX := 16
  const LITERAL_INLINE_MAX := 59
  const COPY1_MIN_LENGTH := 4

  datatype SnappyReject =
    | NoReject | PreambleByteMissing | PreambleFinalGroup | PreambleUnreachable | DeclaredOverCapacity | PastTerminal
    | UnderProduction | LiteralHeaderTruncated | LiteralPayloadTruncated | LiteralOverProduction | CopyHeaderTruncated
    | CopyOffsetZero | CopyOffsetBeforeStart | CopyOverProduction

  // ----- the preamble -----

  datatype Preamble = Preamble(declared: nat, size: nat) | BadPreamble(why: SnappyReject)

  /** The varint from group `g` on. */
  function ReadGroups(src: seq<byte>, g: nat): Preamble
    requires g < VARINT_GROUPS
    decreases VARINT_GROUPS - g
  {
    if g >= |src| then BadPreamble(PreambleByteMissing)
    else if g + 1 == VARINT_GROUPS && src[g] >= VARINT_FINAL_MAX then BadPreamble(PreambleFinalGroup)
    else if src[g] < VARINT_CONTINUE then Preamble(src[g], g + 1)
    else
      match ReadGroups(src, g + 1)
      case Preamble(v, size) => Preamble(src[g] - VARINT_CONTINUE + 0x80 * v, size)
      case BadPreamble(why) => BadPreamble(why)
  }

  function Varint(v: nat): (w: seq<byte>)
    ensures |w| >= 1
  {
    if v >= VARINT_CONTINUE then [v % 0x80 + VARINT_CONTINUE] + Varint(v / 0x80) else [v]
  }

  /** What the groups from `g` on can declare. */
  function GroupBound(g: nat): (n: nat)
    requires g < VARINT_GROUPS
    decreases VARINT_GROUPS - g
  {
    if g + 1 == VARINT_GROUPS then VARINT_FINAL_MAX else 0x80 * GroupBound(g + 1)
  }

  lemma GroupBoundIs32Bits()
    ensures GroupBound(0) == 0x1_0000_0000
  {
    assert GroupBound(4) == 16 && GroupBound(3) == 0x800 && GroupBound(2) == 0x4_0000 && GroupBound(1) == 0x200_0000;
  }

  lemma {:induction false} DeclaredIsBounded(src: seq<byte>, g: nat)
    requires g < VARINT_GROUPS && ReadGroups(src, g).Preamble?
    ensures ReadGroups(src, g).declared < GroupBound(g) && g < ReadGroups(src, g).size <= |src|
    ensures GroupBound(g) >= 16
    decreases VARINT_GROUPS - g
  {
    BoundAtLeast(g);
    if src[g] >= VARINT_CONTINUE {
      DeclaredIsBounded(src, g + 1);
    }
  }

  lemma {:induction false} BoundAtLeast(g: nat)
    requires g < VARINT_GROUPS
    ensures GroupBound(g) >= 16 && (g + 1 < VARINT_GROUPS ==> GroupBound(g) >= 0x800)
    decreases VARINT_GROUPS - g
  {
    if g + 1 < VARINT_GROUPS { BoundAtLeast(g + 1); }
  }

  /** Reading a varint inverts writing it, for every value below 2^32. */
  lemma {:induction false} VarintInverse(src: seq<byte>, g: nat, v: nat)
    requires g < VARINT_GROUPS && v < GroupBound(g) && At(src, g, Varint(v))
    ensures ReadGroups(src, g) == Preamble(v, g + |Varint(v)|)
    decreases VARINT_GROUPS - g
  {
    assert src[g] == src[g..g + |Varint(v)|][0] == Varint(v)[0];
    if v >= VARINT_CONTINUE {
      assert src[g + 1..g + |Varint(v)|] == src[g..g + |Varint(v)|][1..] == Varint(v / 0x80);
      VarintInverse(src, g + 1, v / 0x80);
    }
  }

  // ----- elements -----

  datatype Element = Literal(bytes: seq<byte>) | Copy(offset: nat, length: nat)
  {
    function Length(): nat {
      if Literal? then |bytes| else length
    }
  }

  /** An element's header, read. */
  datatype Header = LiteralAt(at: nat, length: nat) | CopyFrom(offset: nat, length: nat, next: nat) | Truncated(why: SnappyReject)

  function ReadHeader(src: seq<byte>, p: nat): (h: Header)
    requires p < |src|
    ensures h.Truncated? ==> h.why == LiteralHeaderTruncated || h.why == CopyHeaderTruncated
  {
    var tag: nat := src[p];
    var v := tag / 4;
    if tag % 4 == 0 then
      if v <= LITERAL_INLINE_MAX then LiteralAt(p + 1, v + 1)
      else
        var extra := v - LITERAL_INLINE_MAX;
        if p + 1 + extra > |src| then Truncated(LiteralHeaderTruncated)
        else LiteralAt(p + 1 + extra, Number(src[p + 1..p + 1 + extra]) + 1)
    else if p + 1 + OffsetBytes(tag) > |src| then Truncated(CopyHeaderTruncated)
    else
      var offset := Number(src[p + 1..p + 1 + OffsetBytes(tag)]);
      if tag % 4 == 1 then CopyFrom(offset + 0x100 * (tag / 32), COPY1_MIN_LENGTH + v % 8, p + 2)
      else CopyFrom(offset, v + 1, p + 1 + OffsetBytes(tag))
  }

  function OffsetBytes(tag: nat): nat {
    if tag % 4 == 2 then 2 else if tag % 4 == 3 then 4 else 1
  }

  /** The first rung of the ladder an element fails, if any. */
  function Judge(src: seq<byte>, p: nat, d: nat, declared: nat): (why: SnappyReject)
    requires p < |src|
    ensures why != DeclaredOverCapacity
  {
    match ReadHeader(src, p)
    case Truncated(why) => why
    case LiteralAt(at, length) =>
      if at + length > |src| then LiteralPayloadTruncated
      else if d + length > declared then LiteralOverProduction
      else NoReject
    case CopyFrom(offset, length, _) =>
      if offset == 0 then CopyOffsetZero
      else if offset > d then CopyOffsetBeforeStart
      else if d + length > declared then CopyOverProduction
      else NoReject
  }

  function TheElement(src: seq<byte>, p: nat): Element
    requires p < |src|
  {
    match ReadHeader(src, p)
    case LiteralAt(at, length) => Element.Literal(if at + length <= |src| then src[at..at + length] else [])
    case CopyFrom(offset, length, _) => Copy(offset, length)
    case Truncated(_) => Copy(0, 0)
  }

  function NextElement(src: seq<byte>, p: nat): (next: nat)
    requires p < |src|
    ensures next > p
  {
    match ReadHeader(src, p)
    case LiteralAt(at, length) => at + length
    case CopyFrom(_, _, next) => next
    case Truncated(_) => p + 1
  }

  // ----- whole streams -----

  datatype Reading = Elements(es: seq<Element>) | Fails(why: SnappyReject)

  /** The elements from `p` on, with `d` bytes produced so far. */
  function Parse(src: seq<byte>, p: nat, d: nat, declared: nat): Reading
    decreases |src| - p
  {
    if p >= |src| then if d == declared then Elements([]) else Fails(UnderProduction)
    else if Judge(src, p, d, declared) != NoReject then Fails(Judge(src, p, d, declared))
    else
      var e := TheElement(src, p);
      match Parse(src, NextElement(src, p), d + e.Length(), declared)
      case Elements(es) => Elements([e] + es)
      case Fails(why) => Fails(why)
  }

  function ReadStream(src: seq<byte>, cap: nat): Reading {
    match ReadGroups(src, 0)
    case BadPreamble(why) => Fails(why)
    case Preamble(declared, size) => if declared > cap then Fails(DeclaredOverCapacity) else Parse(src, size, 0, declared)
  }

  ghost predicate Plays(d: nat, es: seq<Element>)
    decreases |es|
  {
    es == []
    || (es[0].Length() >= 1 && (es[0].Copy? ==> 1 <= es[0].offset <= d) && Plays(d + es[0].Length(), es[1..]))
  }

  function Bytes(es: seq<Element>): nat
    decreases |es|
  {
    if es == [] then 0 else es[0].Length() + Bytes(es[1..])
  }

  ghost function PlayOne(out: seq<byte>, e: Element): (r: seq<byte>)
    requires e.Copy? ==> 1 <= e.offset <= |out|
    ensures |r| == |out| + e.Length()
  {
    match e
    case Literal(bytes) => out + bytes
    case Copy(offset, length) => CopyMatch(out, offset, length)
  }

  /** In-order execution. */
  ghost function Play(out: seq<byte>, es: seq<Element>): (r: seq<byte>)
    requires Plays(|out|, es)
    ensures |r| == |out| + Bytes(es)
    decreases |es|
  {
    if es == [] then out else Play(PlayOne(out, es[0]), es[1..])
  }

  lemma {:induction false} PlayOneMore(out: seq<byte>, es: seq<Element>, e: Element)
    requires Plays(|out|, es) && e.Length() >= 1 && (e.Copy? ==> 1 <= e.offset <= |out| + Bytes(es))
    ensures Plays(|out|, es + [e]) && Bytes(es + [e]) == Bytes(es) + e.Length()
    ensures Play(out, es + [e]) == PlayOne(Play(out, es), e)
    decreases |es|
  {
    hide PlayOne;
    if es == [] {
      assert [e][1..] == [] && es + [e] == [e];
      assert Play(out, [e]) == Play(PlayOne(out, e), []);
    } else {
      assert (es + [e])[1..] == es[1..] + [e];
      PlayOneMore(PlayOne(out, es[0]), es[1..], e);
    }
  }

  /** A judged element lies inside the source and inside the declared output, and
      exactly one of its halves is non-empty. */
  lemma JudgedInBounds(src: seq<byte>, p: nat, d: nat, declared: nat)
    requires p < |src| && Judge(src, p, d, declared) == NoReject
    ensures var e := TheElement(src, p);
            && p < NextElement(src, p) <= |src| && e.Length() >= 1 && d + e.Length() <= declared
            && (e.Copy? ==> 1 <= e.offset <= d)
            && (e.Copy? <==> ReadHeader(src, p).CopyFrom?) && e.Length() == ReadHeader(src, p).length
  {
  }

  /** A stream that parses produces exactly what it declares, through elements
      that each produce something and never reach before the start. */
  lemma {:induction false} ParsedPlays(src: seq<byte>, p: nat, d: nat, declared: nat)
    requires p <= |src| && Parse(src, p, d, declared).Elements?
    ensures var es := Parse(src, p, d, declared).es;
            Plays(d, es) && d + Bytes(es) == declared && p + |es| <= |src|
    decreases |src| - p
  {
    hide Judge, TheElement, NextElement;
    if p < |src| {
      JudgedInBounds(src, p, d, declared);
      var e := TheElement(src, p);
      ParsedPlays(src, NextElement(src, p), d + e.Length(), declared);
      var rest := Parse(src, NextElement(src, p), d + e.Length(), declared).es;
      assert ([e] + rest)[1..] == rest;
    }
  }

  // ----- every spelling of an element -----

  /** How an element's header is written: a literal's length inline or in one to
      four bytes behind the tag, a copy's offset in one, two or four. */
  datatype Spelling = Inline | LengthIn(n: nat) | Copy1 | Copy2 | Copy4

  ghost predicate CanSpell(e: Element, how: Spelling) {
    match how
    case Inline => e.Literal? && 1 <= |e.bytes| <= 60
    case LengthIn(n) => e.Literal? && 1 <= n <= 4 && 1 <= |e.bytes| <= Pow2(8 * n)
    case Copy1 => e.Copy? && 4 <= e.length <= 11 && e.offset < 0x800
    case Copy2 => e.Copy? && 1 <= e.length <= 64 && e.offset < 0x1_0000
    case Copy4 => e.Copy? && 1 <= e.length <= 64 && e.offset < 0x1_0000_0000
  }

  function Tag(e: Element, how: Spelling): (w: seq<byte>)
    requires CanSpell(e, how)
    ensures |w| >= 1
  {
    match how
    case Inline => [4 * (|e.bytes| - 1)]
    case LengthIn(n) => [4 * (LITERAL_INLINE_MAX + n)] + Little(|e.bytes| - 1, n)
    case Copy1 => [1 + 4 * (e.length - COPY1_MIN_LENGTH) + 32 * (e.offset / 256)] + Little(e.offset % 256, 1)
    case Copy2 => [2 + 4 * (e.length - 1)] + Little(e.offset, 2)
    case Copy4 => [3 + 4 * (e.length - 1)] + Little(e.offset, 4)
  }

  function Spell(e: Element, how: Spelling): (w: seq<byte>)
    requires CanSpell(e, how)
    ensures |w| >= 1
  {
    Tag(e, how) + (if e.Literal? then e.bytes else [])
  }

  /** A tag and the bytes behind it, where they lie. */
  lemma TagAt(src: seq<byte>, p: nat, tag: byte, rest: seq<byte>)
    requires At(src, p, [tag] + rest)
    ensures p < |src| && src[p] == tag && p + 1 + |rest| <= |src| && src[p + 1..p + 1 + |rest|] == rest
  {
    AtConcat(src, p, [tag], rest);
    assert src[p] == src[p..p + 1][0];
  }

  lemma Copy1Tag(bias: nat, hi: nat)
    requires bias < 8 && hi < 8
    ensures var tag := 1 + 4 * bias + 32 * hi;
            tag < 0x100 && tag % 4 == 1 && tag / 4 % 8 == bias && tag / 32 == hi
  {
    var tag := 1 + 4 * bias + 32 * hi;
    assert tag / 4 == bias + 8 * hi && tag / 32 == hi;
    assert (bias + 8 * hi) % 8 == bias;
  }

  lemma Copy1Spelled(e: Element)
    requires CanSpell(e, Copy1)
    ensures 1 + 4 * (e.length - COPY1_MIN_LENGTH) + 32 * (e.offset / 256) < 0x100
    ensures Spell(e, Copy1) == [1 + 4 * (e.length - COPY1_MIN_LENGTH) + 32 * (e.offset / 256)] + Little(e.offset % 256, 1)
  {
    hide Little;
    Copy1Tag(e.length - COPY1_MIN_LENGTH, e.offset / 256);
  }

  lemma Copy1Header(src: seq<byte>, p: nat)
    requires p + 1 < |src| && src[p] % 4 == 1
    ensures ReadHeader(src, p)
         == CopyFrom(Number(src[p + 1..p + 2]) + 0x100 * (src[p] as nat / 32), COPY1_MIN_LENGTH + src[p] as nat / 4 % 8, p + 2)
  {
    hide Number;
  }

  /** Reading a header inverts writing it, in every spelling. */
  lemma Copy1Reads(src: seq<byte>, p: nat, e: Element)
    requires CanSpell(e, Copy1) && At(src, p, Spell(e, Copy1))
    ensures p < |src| && ReadHeader(src, p) == CopyFrom(e.offset, e.length, p + |Spell(e, Copy1)|)
  {
    hide Number, Little, Spell, ReadHeader, Pow2, At;
    var hi, lo, bias := e.offset / 256, e.offset % 256, e.length - COPY1_MIN_LENGTH;
    Copy1Tag(bias, hi);
    Copy1Spelled(e);
    TagAt(src, p, 1 + 4 * bias + 32 * hi, Little(lo, 1));
    BytePowers();
    LittleInverse(lo, 1);
    Copy1Header(src, p);
  }

  lemma WideReads(src: seq<byte>, p: nat, e: Element, how: Spelling)
    requires (how.Copy2? || how.Copy4?) && CanSpell(e, how) && At(src, p, Spell(e, how))
    ensures p < |src| && ReadHeader(src, p) == CopyFrom(e.offset, e.length, p + |Spell(e, how)|)
  {
    hide Number, Little, Pow2, At;
    var n := if how.Copy2? then 2 else 4;
    var tag: byte := (if how.Copy2? then 2 else 3) + 4 * (e.length - 1);
    assert Spell(e, how) == [tag] + Little(e.offset, n);
    TagAt(src, p, tag, Little(e.offset, n));
    BytePowers();
    LittleInverse(e.offset, n);
  }

  lemma LiteralReads(src: seq<byte>, p: nat, e: Element, how: Spelling)
    requires e.Literal? && CanSpell(e, how) && At(src, p, Spell(e, how))
    ensures p < |src| && ReadHeader(src, p) == LiteralAt(p + |Tag(e, how)|, |e.bytes|)
    ensures At(src, p + |Tag(e, how)|, e.bytes)
  {
    hide Number, Little, Pow2;
    var w := Tag(e, how);
    AtConcat(src, p, w, e.bytes);
    match how
    case Inline => TagAt(src, p, w[0], []);
    case LengthIn(n) =>
      TagAt(src, p, 4 * (LITERAL_INLINE_MAX + n), Little(|e.bytes| - 1, n));
      LittleInverse(|e.bytes| - 1, n);
  }

  datatype Spelled = Spelled(e: Element, how: Spelling)

  ghost predicate CanSpellAll(s: seq<Spelled>) {
    forall i :: 0 <= i < |s| ==> CanSpell(s[i].e, s[i].how)
  }

  ghost function SpellAll(s: seq<Spelled>): seq<byte>
    requires CanSpellAll(s)
  {
    if s == [] then [] else Spell(s[0].e, s[0].how) + SpellAll(s[1..])
  }

  function Unspelled(s: seq<Spelled>): (es: seq<Element>)
    ensures |es| == |s|
  {
    if s == [] then [] else [s[0].e] + Unspelled(s[1..])
  }

  lemma SpelledIsJudged(src: seq<byte>, p: nat, d: nat, declared: nat, e: Element, how: Spelling)
    requires CanSpell(e, how) && At(src, p, Spell(e, how))
    requires d + e.Length() <= declared && (e.Copy? ==> 1 <= e.offset <= d)
    ensures p < |src| && Judge(src, p, d, declared) == NoReject
    ensures TheElement(src, p) == e && NextElement(src, p) == p + |Spell(e, how)|
  {
    hide Tag, ReadHeader, Number;
    if how.Copy1? { Copy1Reads(src, p, e); }
    else if e.Copy? { WideReads(src, p, e, how); }
    else { LiteralReads(src, p, e, how); }
  }

  /** Any spelling of any elements that can be played parses back to them. */
  lemma {:induction false} SpellingInverse(src: seq<byte>, p: nat, d: nat, s: seq<Spelled>)
    requires p <= |src| && CanSpellAll(s) && src[p..] == SpellAll(s) && Plays(d, Unspelled(s))
    ensures Parse(src, p, d, d + Bytes(Unspelled(s))) == Elements(Unspelled(s))
    decreases |s|
  {
    hide Judge, TheElement, NextElement, Spell;
    if s != [] {
      var e, how := s[0].e, s[0].how;
      var w := Spell(e, how);
      var declared := d + Bytes(Unspelled(s));
      assert Unspelled(s)[1..] == Unspelled(s[1..]);
      assert src[p..p + |w|] == src[p..][..|w|] == w;
      assert src[p + |w|..] == src[p..][|w|..] == SpellAll(s[1..]);
      SpelledIsJudged(src, p, d, declared, e, how);
      SpellingInverse(src, p + |w|, d + e.Length(), s[1..]);
    }
  }

  // ----- every parsed element is spelled -----

  /** The spelling the tag at `p` announces. */
  function SpellingAt(src: seq<byte>, p: nat): Spelling
    requires p < |src|
  {
    var tag: nat := src[p];
    if tag % 4 == 0 then if tag / 4 <= LITERAL_INLINE_MAX then Inline else LengthIn(tag / 4 - LITERAL_INLINE_MAX)
    else if tag % 4 == 1 then Copy1 else if tag % 4 == 2 then Copy2 else Copy4
  }

  lemma AtTag(src: seq<byte>, p: nat, rest: seq<byte>)
    requires p < |src| && p + 1 + |rest| <= |src| && src[p + 1..p + 1 + |rest|] == rest
    ensures At(src, p, [src[p]] + rest)
  {
    assert src[p..p + 1 + |rest|] == [src[p]] + src[p + 1..p + 1 + |rest|];
  }

  lemma LiteralSpelled(src: seq<byte>, p: nat, e: Element)
    requires p < |src| && src[p] % 4 == 0 && ReadHeader(src, p).LiteralAt?
    requires var h := ReadHeader(src, p);
             h.at + h.length <= |src| && e == Element.Literal(src[h.at..h.at + h.length])
    ensures CanSpell(e, SpellingAt(src, p)) && At(src, p, Spell(e, SpellingAt(src, p)))
    ensures ReadHeader(src, p).at + |e.bytes| == p + |Spell(e, SpellingAt(src, p))|
  {
    hide Number, Little, At, Pow2;
    var v: nat := src[p] as nat / 4;
    if v <= LITERAL_INLINE_MAX {
      AtTag(src, p, []);
      assert [src[p]] + [] == [src[p]] == Tag(e, Inline);
      LiteralFollows(src, p, [src[p]], e);
    } else {
      var n := v - LITERAL_INLINE_MAX;
      var w := src[p + 1..p + 1 + n];
      NumberBelow(w);
      LittleOfNumber(w);
      AtTag(src, p, w);
      assert [src[p]] + w == Tag(e, LengthIn(n));
      LiteralFollows(src, p, [src[p]] + w, e);
    }
  }

  lemma LiteralFollows(src: seq<byte>, p: nat, tag: seq<byte>, e: Element)
    requires At(src, p, tag) && e.Literal? && p + |tag| + |e.bytes| <= |src|
    requires e.bytes == src[p + |tag|..p + |tag| + |e.bytes|]
    ensures At(src, p, tag + e.bytes)
  {
    AtConcat(src, p, tag, e.bytes);
  }

  lemma CopySpelled(src: seq<byte>, p: nat, e: Element)
    requires p < |src| && src[p] % 4 != 0 && ReadHeader(src, p).CopyFrom?
    requires e == Copy(ReadHeader(src, p).offset, ReadHeader(src, p).length)
    ensures CanSpell(e, SpellingAt(src, p)) && At(src, p, Spell(e, SpellingAt(src, p)))
    ensures ReadHeader(src, p).next == p + |Spell(e, SpellingAt(src, p))|
  {
    hide Number, Little, At, Pow2;
    var tag: nat := src[p];
    var w := src[p + 1..p + 1 + OffsetBytes(tag)];
    NumberBelow(w);
    BytePowers();
    LittleOfNumber(w);
    AtTag(src, p, w);
    if tag % 4 == 1 {
      var lo, hi := Number(w), tag / 32;
      assert hi < 8 && lo < 256;
      assert (lo + 0x100 * hi) / 256 == hi && (lo + 0x100 * hi) % 256 == lo;
      NarrowTag(tag);
    }
    assert [src[p]] + w == Tag(e, SpellingAt(src, p));
    assert Tag(e, SpellingAt(src, p)) + [] == Tag(e, SpellingAt(src, p));
  }

  lemma NarrowTag(tag: nat)
    requires tag < 0x100 && tag % 4 == 1
    ensures tag == 1 + 4 * (tag / 4 % 8) + 32 * (tag / 32)
  {
    var v := tag / 4;
    assert tag == 4 * v + 1 && tag / 32 == v / 8;
  }

  lemma JudgedIsSpelled(src: seq<byte>, p: nat, d: nat, declared: nat)
    requires p < |src| && Judge(src, p, d, declared) == NoReject
    ensures var e, how := TheElement(src, p), SpellingAt(src, p);
            CanSpell(e, how) && At(src, p, Spell(e, how)) && NextElement(src, p) == p + |Spell(e, how)|
  {
    hide Spell, CanSpell, At, SpellingAt, Number;
    if src[p] % 4 == 0 {
      LiteralSpelled(src, p, TheElement(src, p));
    } else {
      CopySpelled(src, p, TheElement(src, p));
    }
  }

  /** What parses is spelled: the bytes are those of some spelling of the elements,
      to the end. */
  lemma {:induction false} ParsedIsSpelled(src: seq<byte>, p: nat, d: nat, declared: nat) returns (s: seq<Spelled>)
    requires p <= |src| && Parse(src, p, d, declared).Elements?
    ensures CanSpellAll(s) && Unspelled(s) == Parse(src, p, d, declared).es && src[p..] == SpellAll(s)
    decreases |src| - p
  {
    hide Judge, TheElement, NextElement, Spell, CanSpell;
    s := [];
    if p < |src| {
      JudgedInBounds(src, p, d, declared);
      JudgedIsSpelled(src, p, d, declared);
      var e, how, next := TheElement(src, p), SpellingAt(src, p), NextElement(src, p);
      var rest := ParsedIsSpelled(src, next, d + e.Length(), declared);
      s := [Spelled(e, how)] + rest;
      assert s[1..] == rest;
      assert src[p..] == src[p..next] + src[next..];
    }
  }

  /** A stream of these elements, however it spells them: its preamble declares
      what they produce, within the capacity, they reach only backwards, and they
      are spelled to the end. */
  ghost predicate Spells(src: seq<byte>, cap: nat, s: seq<Spelled>) {
    && ReadGroups(src, 0).Preamble? && Bytes(Unspelled(s)) == ReadGroups(src, 0).declared <= cap
    && Plays(0, Unspelled(s)) && CanSpellAll(s)
    && ReadGroups(src, 0).size <= |src| && src[ReadGroups(src, 0).size..] == SpellAll(s)
  }

  /** The streams accepted are exactly the streams that spell some elements, and
      every spelling of one stream spells the same. */
  lemma AcceptedIsSpelled(src: seq<byte>, cap: nat)
    ensures ReadStream(src, cap).Elements? <==> exists s :: Spells(src, cap, s)
    ensures forall s :: Spells(src, cap, s) ==> ReadStream(src, cap) == Elements(Unspelled(s))
  {
    hide ReadGroups, Parse, SpellAll, Unspelled, CanSpellAll, Plays, Bytes;
    var pre := ReadGroups(src, 0);
    if ReadStream(src, cap).Elements? {
      DeclaredIsBounded(src, 0);
      ParsedPlays(src, pre.size, 0, pre.declared);
      var s := ParsedIsSpelled(src, pre.size, 0, pre.declared);
      assert Spells(src, cap, s);
    }
    forall s | Spells(src, cap, s) ensures ReadStream(src, cap) == Elements(Unspelled(s)) {
      SpellingInverse(src, pre.size, 0, s);
    }
  }

  /** The round trip of a whole stream, at any capacity that holds the output. */
  lemma StreamRoundTrip(s: seq<Spelled>, cap: nat)
    requires CanSpellAll(s) && Plays(0, Unspelled(s)) && Bytes(Unspelled(s)) <= cap && Bytes(Unspelled(s)) < 0x1_0000_0000
    ensures ReadStream(Varint(Bytes(Unspelled(s))) + SpellAll(s), cap) == Elements(Unspelled(s))
  {
    hide Varint, SpellAll, Parse, Unspelled, GroupBound, Plays, Bytes;
    var n := Bytes(Unspelled(s));
    var src := Varint(n) + SpellAll(s);
    GroupBoundIs32Bits();
    assert src[..|Varint(n)|] == Varint(n) && src[|Varint(n)|..] == SpellAll(s);
    VarintInverse(src, 0, n);
    SpellingInverse(src, |Varint(n)|, 0, s);
  }
}
