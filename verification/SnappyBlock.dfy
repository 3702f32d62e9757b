/** The Snappy parser, its sequential executor, and the two stream builders of
    the benchmark. */
module SnappyBlock {
  import opened Bits
  import opened Cudec
  import opened Lz77
  import opened SnappyFormat
  import opened DecodeSequences

  /** Whether a rung is an output-side refusal. */
  function StatusOf(why: SnappyReject): Status {
    match why
    case NoReject => Okay
    case DeclaredOverCapacity => OutputTooSmall
    case _ => CorruptInput
  }

  lemma {:induction false} ShlOfSum(a: nat, b: nat, k: nat)
    ensures Shl(a + b, k) == Shl(a, k) + Shl(b, k)
  {
    if k > 0 { ShlOfSum(a, b, k - 1); }
  }

  /** A varint group lands above the groups before it. */
  lemma GroupLands(result: nat, k: nat, b: nat, rest: nat)
    requires result < Pow2(k) && b < 0x80
    ensures BitOr(result, Shl(b, k)) == result + Shl(b, k) < Pow2(k + 7)
    ensures Shl(b + 0x80 * rest, k) == Shl(b, k) + Shl(rest, k + 7)
  {
    var seven := 7;
    assert Pow2(seven) == 0x80 by { assert Pow2(7) == 0x80; }
    OrAppends(result, k, b, seven);
    ShlOfSum(b, 0x80 * rest, k);
    ShlAgain(rest, k, seven);
    ShlIsProduct(rest, seven);
  }

  /** The preamble alone. The exit behind the loop is never taken. */
  method SnappyDeclaredLength(src: seq<byte>) returns (declared: nat, preambleSize: nat, reject: SnappyReject)
    ensures match ReadGroups(src, 0)
            case Preamble(v, n) => reject == NoReject && declared == v < 0x1_0000_0000 && preambleSize == n <= |src|
            case BadPreamble(why) => reject == why && declared == 0 && preambleSize == 0
  {
    hide ReadGroups, SoFar;
    ghost var whole := ReadGroups(src, 0);
    if whole.Preamble? {
      DeclaredIsBounded(src, 0);
      GroupBoundIs32Bits();
    }
    var result: nat := 0;
    declared, preambleSize := 0, 0;
    GroupsBegin(src);
    for group := 0 to VARINT_GROUPS
      invariant group < VARINT_GROUPS && SoFar(src, whole, group, result)
    {
      GroupTaken(src, whole, group, result);
      if group >= |src| {
        return 0, 0, PreambleByteMissing;
      }
      var byte := src[group];
      if group + 1 == VARINT_GROUPS && byte >= VARINT_FINAL_MAX {
        return 0, 0, PreambleFinalGroup;
      }
      result := BitOr(result, Shl(byte % 0x80, 7 * group));
      if byte < VARINT_CONTINUE {
        return result, group + 1, NoReject;
      }
    }
    assert false;
    reject := PreambleUnreachable;
  }

  /** `result` is what the groups below `g` contribute to `whole`. */
  ghost predicate SoFar(src: seq<byte>, whole: Preamble, g: nat, result: nat)
    requires g < VARINT_GROUPS
  {
    && result < Pow2(7 * g)
    && match ReadGroups(src, g)
       case Preamble(v, n) => whole == Preamble(result + Shl(v, 7 * g), n)
       case BadPreamble(why) => whole == BadPreamble(why)
  }

  lemma GroupsBegin(src: seq<byte>)
    ensures SoFar(src, ReadGroups(src, 0), 0, 0)
  {
  }

  /** One group: refused, final, or carried into the next. */
  lemma GroupTaken(src: seq<byte>, whole: Preamble, g: nat, result: nat)
    requires g < VARINT_GROUPS && SoFar(src, whole, g, result)
    ensures g >= |src| ==> whole == BadPreamble(PreambleByteMissing)
    ensures g < |src| && g + 1 == VARINT_GROUPS && src[g] >= VARINT_FINAL_MAX ==> whole == BadPreamble(PreambleFinalGroup)
    ensures g < |src| && (g + 1 < VARINT_GROUPS || src[g] < VARINT_FINAL_MAX) ==>
              var result' := BitOr(result, Shl(src[g] % 0x80, 7 * g));
              && (src[g] < VARINT_CONTINUE ==> whole == Preamble(result', g + 1))
              && (src[g] >= VARINT_CONTINUE ==> g + 1 < VARINT_GROUPS && SoFar(src, whole, g + 1, result'))
  {
    hide SoFar, Shl, Pow2, BitOr;
    SoFarSays(src, whole, g, result);
    if g < |src| && (g + 1 < VARINT_GROUPS || src[g] < VARINT_FINAL_MAX) {
      if src[g] >= VARINT_CONTINUE {
        GroupCarried(src, whole, g, result);
      } else {
        GroupLands(result, 7 * g, src[g], 0);
      }
    }
  }

  lemma SoFarSays(src: seq<byte>, whole: Preamble, g: nat, result: nat)
    requires g < VARINT_GROUPS && SoFar(src, whole, g, result)
    ensures result < Pow2(7 * g)
    ensures match ReadGroups(src, g)
            case Preamble(v, n) => whole == Preamble(result + Shl(v, 7 * g), n)
            case BadPreamble(why) => whole == BadPreamble(why)
  {
  }

  lemma GroupCarried(src: seq<byte>, whole: Preamble, g: nat, result: nat)
    requires g + 1 < VARINT_GROUPS && SoFar(src, whole, g, result) && g < |src| && src[g] >= VARINT_CONTINUE
    ensures SoFar(src, whole, g + 1, BitOr(result, Shl(src[g] % 0x80, 7 * g)))
  {
    hide Shl, Pow2, BitOr;
    var rest := ReadGroups(src, g + 1);
    GroupLands(result, 7 * g, src[g] % 0x80, if rest.Preamble? then rest.declared else 0);
  }

  /** A little-endian field of `n` bytes. */
  method ReadLittle(src: seq<byte>, at: nat, n: nat) returns (v: nat)
    requires at + n <= |src|
    ensures v == Number(src[at..at + n])
  {
    v := 0;
    for i := 0 to n
      invariant v == Number(src[at..at + i])
    {
      var low := src[at..at + i];
      assert src[at..at + i + 1] == low + [src[at + i]];
      NumberBelow(low);
      NumberOneMore(low, src[at + i]);
      OrIsAddition(v, 8 * i, src[at + i]);
      v := BitOr(v, Shl(src[at + i], 8 * i));
    }
  }

  /** Everything about an element follows from its header. */
  lemma HeaderDecides(src: seq<byte>, p: nat, d: nat, declared: nat)
    requires p < |src|
    ensures match ReadHeader(src, p)
            case Truncated(why) => Judge(src, p, d, declared) == why
            case LiteralAt(at, length) =>
              && TheElement(src, p) == Element.Literal(if at + length <= |src| then src[at..at + length] else [])
              && SnappyFormat.NextElement(src, p) == at + length
              && Judge(src, p, d, declared)
                 == (if at + length > |src| then LiteralPayloadTruncated
                     else if d + length > declared then LiteralOverProduction
                     else NoReject)
            case CopyFrom(offset, length, next) =>
              && TheElement(src, p) == Copy(offset, length)
              && SnappyFormat.NextElement(src, p) == next
              && Judge(src, p, d, declared)
                 == (if offset == 0 then CopyOffsetZero
                     else if offset > d then CopyOffsetBeforeStart
                     else if d + length > declared then CopyOverProduction
                     else NoReject)
  {
  }

  class SnappyParser {
    const src: seq<byte>
    const dstCapacity: nat
    var srcPos: nat
    var dstPos: nat
    var declared: nat
    var begun: bool
    var finished: bool
    var reject: SnappyReject

    constructor (src: seq<byte>, dstCapacity: nat)
      ensures this.src == src && this.dstCapacity == dstCapacity && Valid() && !begun && !finished
    {
      this.src, this.dstCapacity := src, dstCapacity;
      srcPos, dstPos, declared := 0, 0, 0;
      begun, finished, reject := false, false, NoReject;
    }

    ghost predicate Valid()
      reads this
    {
      && (begun ==>
            && ReadGroups(src, 0).Preamble? && declared == ReadGroups(src, 0).declared <= dstCapacity
            && srcPos <= |src| && dstPos <= declared)
      && (!begun ==> srcPos == 0 && dstPos == 0 && !finished)
    }

    /** What the stream still holds, from the parser's own cursors. */
    ghost function Ahead(): Reading
      reads this
    {
      if finished then Fails(PastTerminal)
      else if begun then Parse(src, srcPos, dstPos, declared)
      else ReadStream(src, dstCapacity)
    }

    method Begin() returns (status: Status)
      requires Valid()
      modifies this
      ensures Valid() && finished == old(finished)
      ensures status == Okay ==> begun && (!finished ==> Ahead() == old(Ahead()))
      ensures status != Okay ==> !begun && old(Ahead()) == Fails(reject) && status == StatusOf(reject) && reject != NoReject
      ensures old(begun) ==> status == Okay && srcPos == old(srcPos) && dstPos == old(dstPos)
      ensures !old(begun) && status == Okay ==> dstPos == 0 && 0 < srcPos
    {
      if begun {
        return Okay;
      }
      var preambleSize;
      declared, preambleSize, reject := SnappyDeclaredLength(src);
      if reject != NoReject {
        return StatusOf(reject);
      }
      if declared > dstCapacity {
        reject := DeclaredOverCapacity;
        return OutputTooSmall;
      }
      DeclaredIsBounded(src, 0);
      srcPos := preambleSize;
      begun := true;
      return Okay;
    }

    /** Parse the next element and advance both cursors past it. What comes back
        is the head of what the stream still holds; the terminal element is
        handed out once, and a call past it refuses. */
    method Next() returns (status: Status, done: bool, element: DecodeSequence)
      requires Valid()
      modifies this
      ensures Valid()
      ensures old(finished) ==> status == CorruptInput && reject == PastTerminal && finished
      ensures status != Okay ==> old(Ahead()) == Fails(reject) && status == StatusOf(reject) && reject != NoReject
      ensures done ==> old(Ahead()) == Elements([]) && finished && element == NO_SEQUENCE && srcPos == |src| && dstPos == declared
      ensures done ==> status == Okay && (old(begun) ==> dstPos == old(dstPos)) && (!old(begun) ==> dstPos == 0)
      ensures status == Okay && !done ==>
                && begun && !finished && old(srcPos) < srcPos
                && Advanced(if old(begun) then old(dstPos) else 0, element)
                && old(Ahead()) == Prepend(HandedOut(element), Ahead())
    {
      hide ReadHeader, Judge, Parse, ReadGroups;
      done, element := false, NO_SEQUENCE;
      if finished {
        reject := PastTerminal;
        return CorruptInput, done, element;
      }
      status := Begin();
      if status != Okay {
        return;
      }
      ParseUnfold(src, srcPos, dstPos, declared);
      if srcPos >= |src| {
        if dstPos != declared {
          reject := UnderProduction;
          return CorruptInput, done, element;
        }
        finished := true;
        return Okay, true, element;
      }
      status, element := NextElement();
    }

    /** One element, at a cursor inside the source. */
    method NextElement() returns (status: Status, element: DecodeSequence)
      requires Valid() && begun && !finished && srcPos < |src|
      modifies this`srcPos, this`dstPos, this`reject
      ensures Valid()
      ensures var why := Judge(src, old(srcPos), old(dstPos), declared);
              && (status == Okay <==> why == NoReject)
              && (status != Okay ==> reject == why && status == CorruptInput == StatusOf(why))
      ensures status == Okay ==>
                && HandedOut(element) == TheElement(src, old(srcPos)) && Advanced(old(dstPos), element)
                && srcPos == SnappyFormat.NextElement(src, old(srcPos)) && dstPos == old(dstPos) + HandedOut(element).Length()
    {
      var tag: nat := src[srcPos];
      element := NO_SEQUENCE;
      if tag % 4 == 0 {
        status, element := NextLiteral(tag);
      } else {
        status, element := NextCopy(tag);
      }
    }

    /** A literal's header: where its bytes start, and how many they are. */
    method LiteralHeader(tag: nat) returns (fits: bool, at: nat, length: nat)
      requires srcPos < |src| && tag == src[srcPos] && tag % 4 == 0
      ensures ReadHeader(src, srcPos) == (if fits then LiteralAt(at, length) else Truncated(LiteralHeaderTruncated))
      ensures fits ==> at <= |src| && length >= 1
    {
      hide Number;
      length := tag / 4;
      var header := 1;
      if length > LITERAL_INLINE_MAX {
        var extra := length - LITERAL_INLINE_MAX;
        header := header + extra;
        if header > |src| - srcPos {
          return false, srcPos, 0;
        }
        length := ReadLittle(src, srcPos + 1, extra);
      }
      return true, srcPos + header, length + 1;
    }

    /** A copy's header: the bytes behind the tag, the distance and the length. */
    method CopyHeader(tag: nat) returns (fits: bool, n: nat, offset: nat, length: nat)
      requires srcPos < |src| && tag == src[srcPos] && tag % 4 != 0
      ensures ReadHeader(src, srcPos)
           == if fits then CopyFrom(offset, length, srcPos + 1 + n) else Truncated(CopyHeaderTruncated)
      ensures fits ==> srcPos + 1 + n <= |src| && length >= 1
    {
      hide Number, BitOr, Shl;
      n, offset, length := OffsetBytes(tag), 0, 0;
      if 1 + n > |src| - srcPos {
        return false, n, offset, length;
      }
      offset := ReadLittle(src, srcPos + 1, n);
      length := tag / 4 + 1;
      if tag % 4 == 1 {
        NarrowOffset(src[srcPos + 1], src[srcPos + 1..srcPos + 1 + n], tag / 32);
        offset := BitOr(offset, Shl(tag / 32, 8));
        length := COPY1_MIN_LENGTH + tag / 4 % 8;
      }
      fits := true;
    }

    method NextLiteral(tag: nat) returns (status: Status, element: DecodeSequence)
      requires Valid() && begun && !finished && srcPos < |src| && tag == src[srcPos] && tag % 4 == 0
      modifies this`srcPos, this`dstPos, this`reject
      ensures Valid()
      ensures var why := Judge(src, old(srcPos), old(dstPos), declared);
              && (status == Okay <==> why == NoReject)
              && (status != Okay ==> reject == why && status == CorruptInput == StatusOf(why))
      ensures status == Okay ==>
                && HandedOut(element) == TheElement(src, old(srcPos)) && Advanced(old(dstPos), element)
                && srcPos == SnappyFormat.NextElement(src, old(srcPos)) && dstPos == old(dstPos) + HandedOut(element).Length()
    {
      hide ReadHeader, Judge, TheElement, SnappyFormat.NextElement, ReadGroups;
      HeaderDecides(src, srcPos, dstPos, declared);
      element := NO_SEQUENCE;
      var fits, at, length := LiteralHeader(tag);
      if !fits {
        reject := LiteralHeaderTruncated;
        return CorruptInput, element;
      }
      if length > |src| - at {
        reject := LiteralPayloadTruncated;
        srcPos := at;
        return CorruptInput, element;
      }
      if length > declared - dstPos {
        reject := LiteralOverProduction;
        srcPos := at;
        return CorruptInput, element;
      }
      element := NO_SEQUENCE.(literalsSrc := at, literalsDst := dstPos, literalsLen := length);
      srcPos, dstPos := at + length, dstPos + length;
      return Okay, element;
    }

    method NextCopy(tag: nat) returns (status: Status, element: DecodeSequence)
      requires Valid() && begun && !finished && srcPos < |src| && tag == src[srcPos] && tag % 4 != 0
      modifies this`srcPos, this`dstPos, this`reject
      ensures Valid()
      ensures var why := Judge(src, old(srcPos), old(dstPos), declared);
              && (status == Okay <==> why == NoReject)
              && (status != Okay ==> reject == why && status == CorruptInput == StatusOf(why))
      ensures status == Okay ==>
                && HandedOut(element) == TheElement(src, old(srcPos)) && Advanced(old(dstPos), element)
                && srcPos == SnappyFormat.NextElement(src, old(srcPos)) && dstPos == old(dstPos) + HandedOut(element).Length()
    {
      hide ReadHeader, Judge, TheElement, SnappyFormat.NextElement, ReadGroups;
      HeaderDecides(src, srcPos, dstPos, declared);
      element := NO_SEQUENCE;
      var fits, n, offset, length := CopyHeader(tag);
      if !fits {
        reject := CopyHeaderTruncated;
        return CorruptInput, element;
      }
      srcPos := srcPos + (1 + n);
      if offset == 0 {
        reject := CopyOffsetZero;
        return CorruptInput, element;
      }
      if offset > dstPos {
        reject := CopyOffsetBeforeStart;
        return CorruptInput, element;
      }
      if length > declared - dstPos {
        reject := CopyOverProduction;
        return CorruptInput, element;
      }
      element := NO_SEQUENCE.(matchSrc := dstPos - offset, matchDst := dstPos, matchLen := length);
      dstPos := dstPos + length;
      return Okay, element;
    }

    /** The element an executor is handed, read back as what it stands for. */
    ghost function HandedOut(q: DecodeSequence): Element
    {
      if q.literalsLen > 0 && q.literalsSrc + q.literalsLen <= |src|
      then Element.Literal(src[q.literalsSrc..q.literalsSrc + q.literalsLen])
      else if q.matchDst >= q.matchSrc then Copy(q.matchDst - q.matchSrc, q.matchLen) else Copy(0, 0)
    }

    /** Exactly one half is non-empty, it starts where the output ends, and it
        lies inside its buffers; the other half is all zero. */
    ghost predicate Advanced(d: nat, q: DecodeSequence)
      reads this
    {
      && dstPos <= declared
      && if q.literalsLen > 0 then
           && q.literalsDst == d && q.literalsDst + q.literalsLen == dstPos && q.literalsSrc + q.literalsLen == srcPos <= |src|
           && q.matchSrc == q.matchDst == q.matchLen == 0
         else
           && q.literalsSrc == q.literalsDst == 0
           && q.matchLen > 0 && q.matchSrc < q.matchDst == d && q.matchDst + q.matchLen == dstPos
    }
  }

  function Prepend(e: Element, r: Reading): Reading {
    match r
    case Elements(es) => Elements([e] + es)
    case Fails(why) => Fails(why)
  }

  lemma ParseUnfold(src: seq<byte>, p: nat, d: nat, declared: nat)
    ensures Parse(src, p, d, declared)
         == if p >= |src| then if d == declared then Elements([]) else Fails(UnderProduction)
            else if Judge(src, p, d, declared) != NoReject then Fails(Judge(src, p, d, declared))
            else Prepend(TheElement(src, p), Parse(src, NextElement(src, p), d + TheElement(src, p).Length(), declared))
  {
  }

  lemma NarrowOffset(lo: byte, w: seq<byte>, hi: nat)
    requires w == [lo] && hi < 8
    ensures BitOr(Number(w), Shl(hi, 8)) == Number(w) + 0x100 * hi
  {
    var k := 8;
    assert w[1..] == [];
    ByteShifts(hi);
    OrIsAddition(lo, k, hi);
  }
}
