/** The LZ4 block parser: one object, two cursors, and the validation ladder. */
module Lz4Block {
  import opened Bits
  import opened Cudec
  import opened Lz4Format
  import opened DecodeSequences

  function U64(n: nat): nat {
    if n <= UINT64_MAX then n else n % 0x1_0000_0000_0000_0000
  }

  /** Every extension byte adds at most 255, so a source whose length times 255
      fits in 64 bits cannot wrap an accumulator, whatever the capacity. */
  predicate Fits64(src: seq<byte>, cap: nat) {
    255 * |src| + 0x200 <= UINT64_MAX && cap <= UINT64_MAX
  }

  class Lz4Parser {
    const src: seq<byte>
    const dstCapacity: nat
    var srcPos: nat
    var dstPos: nat

    constructor (src: seq<byte>, dstCapacity: nat)
      requires Fits64(src, dstCapacity)
      ensures Valid() && this.src == src && this.dstCapacity == dstCapacity && srcPos == 0 && dstPos == 0
    {
      this.src, this.dstCapacity := src, dstCapacity;
      srcPos, dstPos := 0, 0;
    }

    ghost predicate Valid()
      reads this
    {
      Fits64(src, dstCapacity) && srcPos <= |src| && dstPos <= dstCapacity
    }

    /** Accumulate a 255-terminated extension onto `length`. It accepts exactly
        the extensions that end before the margin and that the output has room
        for, and its fuel never runs out. */
    method AccumulateLength(length: nat, readMargin: nat, initialCheck: bool) returns (status: Status, length': nat)
      requires Valid() && length <= RUN_MASK + MIN_MATCH && readMargin <= RUN_MASK
      modifies this`srcPos
      ensures Valid() && old(srcPos) <= srcPos
      ensures var f := ReadExtension(src, old(srcPos));
              && (status == Okay ==> f.Field? && srcPos == f.next > old(srcPos) && length' == length + f.value && f.next + readMargin <= |src|)
              && (status != Okay ==> f.NoField? || f.next + readMargin > |src| || length + f.value > dstCapacity - dstPos)
              && (status == CorruptInput ==> f.NoField? || f.next + readMargin > |src|)
              && (status == OutputTooSmall <==> RunsPast(src, old(srcPos), length, readMargin, initialCheck, dstCapacity - dstPos))
      ensures status == Okay || status == CorruptInput || status == OutputTooSmall
    {
      hide ReadExtension, RunsPast, NotPast, PastAt, Saturated;
      ghost var p, room, whole := srcPos, dstCapacity - dstPos, ReadExtension(src, srcPos);
      ExtensionEnds(src, p);
      NothingPast(src, p, length, readMargin, initialCheck, room);
      length' := length;
      if initialCheck && srcPos + readMargin >= |src| {
        return CorruptInput, length';
      }
      var fuel := |src| - srcPos + 1;
      var more := true;
      while more
        invariant Valid() && p <= srcPos && fuel == |src| - srcPos + 1
        invariant length <= length' <= length + 255 * (srcPos - p)
        invariant more ==> length' == length + 255 * (srcPos - p) && Saturated(src, p, srcPos)
        invariant more && srcPos > p ==> srcPos + readMargin <= |src|
        invariant NotPast(src, p, length, readMargin, room, srcPos)
        invariant more ==> whole == Behind(ReadExtension(src, srcPos), length' - length)
        invariant !more ==> whole == Field(length' - length, srcPos) && srcPos + readMargin <= |src| && p < srcPos
        invariant !more ==> !RunsPast(src, p, length, readMargin, initialCheck, room)
        decreases |src| - srcPos, more
      {
        if fuel == 0 {
          assert false;
        }
        fuel := fuel - 1;
        if srcPos >= |src| {
          ExtensionEnds(src, srcPos);
          PastTheEnd(src, p, length, readMargin, initialCheck, room);
          return CorruptInput, length';
        }
        PastHere(src, p, length, readMargin, initialCheck, room, srcPos);
        if length' > dstCapacity - dstPos {
          return OutputTooSmall, length';
        }
        ExtensionUnfold(src, srcPos);
        var byte := src[srcPos];
        srcPos := srcPos + 1;
        length' := U64(length' + byte);
        ExtensionEnds(src, srcPos);
        if srcPos + readMargin > |src| {
          BehindTheEnd(src, p, length, readMargin, initialCheck, room, srcPos);
          return CorruptInput, length';
        }
        more := byte == 255;
        if more {
          SaturatedMore(src, p, srcPos - 1);
        } else {
          BehindTheEnd(src, p, length, readMargin, initialCheck, room, srcPos);
        }
      }
      status := Okay;
    }

    /** The literal half of a token: the run's length, if its bytes are there and
        the output has room for them. */
    method NextLiterals(token: nat) returns (status: Status, literalsLen: nat)
      requires Valid() && srcPos >= 1 && token == src[srcPos - 1]
      modifies this`srcPos
      ensures Valid() && old(srcPos) <= srcPos
      ensures var f := ReadLength(src, old(srcPos), token / 16);
              && (status == Okay ==>
                    && f == Field(literalsLen, srcPos) && srcPos + literalsLen <= |src| && dstPos + literalsLen <= dstCapacity
                    && (literalsLen >= RUN_MASK ==> srcPos + LITERAL_READ_MARGIN <= |src|)
                    && (token / 16 == RUN_MASK ==> srcPos + LITERAL_READ_MARGIN <= |src|))
              && (status != Okay ==>
                    f.NoField? || (f.value >= RUN_MASK && f.next + LITERAL_READ_MARGIN > |src|)
                    || f.next + f.value > |src| || dstPos + f.value > dstCapacity)
              && (status == OutputTooSmall <==> LiteralsPass(src, old(srcPos), token / 16, dstCapacity - dstPos))
      ensures status == Okay || status == CorruptInput || status == OutputTooSmall
    {
      status, literalsLen := Okay, token / 16;
      if literalsLen == RUN_MASK {
        status, literalsLen := AccumulateLength(literalsLen, LITERAL_READ_MARGIN, true);
        if status != Okay {
          return;
        }
      }
      if literalsLen > |src| - srcPos {
        return CorruptInput, literalsLen;
      }
      if literalsLen > dstCapacity - dstPos {
        return OutputTooSmall, literalsLen;
      }
    }

    /** The match half: its length, if the output has room for it and for the
        literals that must follow. */
    method NextMatch(token: nat) returns (status: Status, matchLen: nat)
      requires Valid() && token < 256 && dstCapacity - dstPos >= MIN_TRAILING_SLACK_DST
      modifies this`srcPos
      ensures Valid() && old(srcPos) <= srcPos
      ensures var f := ReadLength(src, old(srcPos), token % 16);
              && (status == Okay ==>
                    && matchLen >= MIN_MATCH && f == Field(matchLen - MIN_MATCH, srcPos)
                    && dstPos + matchLen + LAST_LITERALS <= dstCapacity
                    && (matchLen - MIN_MATCH >= RUN_MASK ==> srcPos + MATCH_READ_MARGIN <= |src|))
              && (status != Okay ==>
                    f.NoField? || (f.value >= RUN_MASK && f.next + MATCH_READ_MARGIN > |src|)
                    || dstPos + f.value + MIN_MATCH + LAST_LITERALS > dstCapacity)
              && (status == OutputTooSmall <==> MatchPasses(src, old(srcPos), token % 16, dstCapacity - dstPos))
      ensures status == Okay || status == CorruptInput || status == OutputTooSmall
    {
      status, matchLen := Okay, token % 16 + MIN_MATCH;
      if token % 16 == RUN_MASK {
        status, matchLen := AccumulateLength(matchLen, MATCH_READ_MARGIN, false);
        if status != Okay {
          return;
        }
      }
      if matchLen > dstCapacity - dstPos {
        return OutputTooSmall, matchLen;
      }
      if matchLen > dstCapacity - dstPos - LAST_LITERALS {
        return CorruptInput, matchLen;
      }
    }

    /** The offset behind a run, and the match half. */
    method NextOffset(token: nat) returns (status: Status, offset: nat, matchLen: nat)
      requires Valid() && token < 256 && dstCapacity - dstPos >= MIN_TRAILING_SLACK_DST && srcPos + 2 <= |src|
      modifies this`srcPos
      ensures Valid() && old(srcPos) <= srcPos
      ensures var f := ReadLength(src, old(srcPos) + 2, token % 16);
              && offset == OffsetAt(src, old(srcPos))
              && (status == Okay ==>
                    && matchLen >= MIN_MATCH && f == Field(matchLen - MIN_MATCH, srcPos) && 1 <= offset <= dstPos
                    && dstPos + matchLen + LAST_LITERALS <= dstCapacity
                    && (matchLen - MIN_MATCH >= RUN_MASK ==> srcPos + MATCH_READ_MARGIN <= |src|))
              && (status != Okay ==>
                    || offset == 0 || offset > dstPos
                    || f.NoField? || (f.value >= RUN_MASK && f.next + MATCH_READ_MARGIN > |src|)
                    || dstPos + f.value + MIN_MATCH + LAST_LITERALS > dstCapacity)
              && (status == OutputTooSmall <==>
                    1 <= offset <= dstPos && MatchPasses(src, old(srcPos) + 2, token % 16, dstCapacity - dstPos))
      ensures status == Okay || status == CorruptInput || status == OutputTooSmall
    {
      hide ReadLength, MatchPasses;
      offset, matchLen := BitOr(src[srcPos], Shl(src[srcPos + 1], 8)), 0;
      TwoBytes(src[srcPos], src[srcPos + 1]);
      srcPos := srcPos + 2;
      if offset == 0 || offset > dstPos {
        status := CorruptInput;
        return;
      }
      status, matchLen := NextMatch(token);
    }

    /** Parse the next sequence and advance both cursors past it. It succeeds if
        and only if a well-formed sequence, or the well-formed tail, lies at the
        cursor; `done` says which. */
    method Next() returns (status: Status, done: bool, sequence: DecodeSequence, ghost at: nat)
      requires Valid()
      modifies this
      ensures Valid() && old(srcPos) <= srcPos
      ensures status == Okay && !done <==> HasSequence(src, dstCapacity, old(srcPos), old(dstPos))
      ensures status == Okay && done <==> HasTail(src, dstCapacity, old(srcPos), old(dstPos))
      ensures status == Okay && !done ==>
                var r := ReadSequence(src, old(srcPos));
                && srcPos == r.next && dstPos == old(dstPos) + r.litLen + r.field + MIN_MATCH
                && sequence == DecodeSequence(r.litAt, old(dstPos), r.litLen, old(dstPos) + r.litLen - r.offset, old(dstPos) + r.litLen, r.field + MIN_MATCH)
      ensures status == Okay && done ==>
                && srcPos == |src| && at == ReadLength(src, old(srcPos) + 1, src[old(srcPos)] / 16).next <= |src|
                && dstPos == old(dstPos) + (|src| - at)
                && sequence == DecodeSequence(at, old(dstPos), |src| - at, 0, dstPos, 0)
      ensures status == OutputTooSmall <==> TooSmall(src, dstCapacity, old(srcPos), old(dstPos))
      ensures status == Okay || status == CorruptInput || status == OutputTooSmall
    {
      hide ReadExtension, ReadLength, LiteralsPass, MatchPasses, HasSequence, HasTail, ReadSequence, Margins;
      done, sequence, at := false, NO_SEQUENCE, 0;
      if srcPos >= |src| {
        NoToken(src, dstCapacity, srcPos, dstPos);
        status := CorruptInput;
        return;
      }
      Rungs(src, dstCapacity, srcPos, dstPos);
      var token := src[srcPos];
      srcPos := srcPos + 1;
      var literalsLen;
      status, literalsLen := NextLiterals(token);
      at := srcPos;
      if status != Okay {
        return;
      }
      var dstSlack := dstCapacity - dstPos - literalsLen;
      var srcSlack := |src| - srcPos - literalsLen;
      if dstSlack < MIN_TRAILING_SLACK_DST || srcSlack < MIN_TRAILING_SLACK_SRC {
        if srcPos + literalsLen != |src| || (dstCapacity == 0 && token != 0) {
          status := CorruptInput;
          return;
        }
        sequence := DecodeSequence(srcPos, dstPos, literalsLen, 0, dstPos + literalsLen, 0);
        srcPos, dstPos := srcPos + literalsLen, dstPos + literalsLen;
        done := true;
        return;
      }
      var literalsSrc, literalsDst := srcPos, dstPos;
      srcPos, dstPos := srcPos + literalsLen, dstPos + literalsLen;
      var offset, matchLen;
      status, offset, matchLen := NextOffset(token);
      if status != Okay {
        return;
      }
      sequence := DecodeSequence(literalsSrc, literalsDst, literalsLen, dstPos - offset, dstPos, matchLen);
      dstPos := dstPos + matchLen;
    }
  }

  function OffsetAt(src: seq<byte>, p: nat): nat
    requires p + 2 <= |src|
  {
    (src[p] as nat) + 256 * (src[p + 1] as nat)
  }

  lemma NoToken(src: seq<byte>, cap: nat, p: nat, d: nat)
    requires p >= |src|
    ensures !HasSequence(src, cap, p, d) && !HasTail(src, cap, p, d)
  {
  }

  /** What a position holds, in the order its parts are read. */
  lemma Rungs(src: seq<byte>, cap: nat, p: nat, d: nat)
    requires p < |src|
    ensures var f := ReadLength(src, p + 1, src[p] / 16);
            && (f.NoField? ==> !HasSequence(src, cap, p, d) && !HasTail(src, cap, p, d))
            && (f.Field? ==>
                  && (HasTail(src, cap, p, d) <==> f.next + f.value == |src| && d + f.value <= cap && (cap == 0 ==> src[p] == 0))
                  && (f.next + f.value + 2 > |src| ==> !HasSequence(src, cap, p, d))
                  && (f.next + f.value + 2 <= |src| ==>
                        var offset, g := OffsetAt(src, f.next + f.value), ReadLength(src, f.next + f.value + 2, src[p] % 16);
                        && (g.NoField? ==> !HasSequence(src, cap, p, d))
                        && (g.Field? ==>
                              && ReadSequence(src, p) == Reading(src[p], f.next, f.value, offset, g.value, g.next)
                              && (HasSequence(src, cap, p, d) <==> Margins(src, cap, d, ReadSequence(src, p)))
                              && (Margins(src, cap, d, ReadSequence(src, p)) <==>
                                    && (f.value >= RUN_MASK ==> f.next + LITERAL_READ_MARGIN <= |src|)
                                    && d + f.value + MIN_TRAILING_SLACK_DST <= cap
                                    && f.next + f.value + MIN_TRAILING_SLACK_SRC <= |src|
                                    && 1 <= offset <= d + f.value
                                    && (g.value >= RUN_MASK ==> g.next + MATCH_READ_MARGIN <= |src|)
                                    && d + f.value + g.value + MIN_MATCH + LAST_LITERALS <= cap))))
  {
    hide ReadLength;
  }

  ghost predicate Saturated(src: seq<byte>, p: nat, q: nat)
    requires q <= |src|
  {
    forall i :: p <= i < q ==> src[i] == 255
  }

  /** Some byte of the extension is reached, through bytes of 255 that were all
      read clear of the margin, with a sum already past the room. */
  ghost predicate RunsPast(src: seq<byte>, p: nat, length: nat, margin: nat, initialCheck: bool, room: nat) {
    && (initialCheck ==> p + margin < |src|)
    && exists q :: p <= q < |src| && PastAt(src, p, length, margin, room, q)
  }

  ghost predicate PastAt(src: seq<byte>, p: nat, length: nat, margin: nat, room: nat, q: nat)
    requires p <= q < |src|
  {
    Saturated(src, p, q) && (q > p ==> q + margin <= |src|) && length + 255 * (q - p) > room
  }

  /** None of the bytes before `at` is such a byte. */
  ghost predicate NotPast(src: seq<byte>, p: nat, length: nat, margin: nat, room: nat, at: nat)
    requires p <= at <= |src|
  {
    forall q :: p <= q < at ==> !PastAt(src, p, length, margin, room, q)
  }

  lemma NothingPast(src: seq<byte>, p: nat, length: nat, margin: nat, initialCheck: bool, room: nat)
    requires p <= |src|
    ensures NotPast(src, p, length, margin, room, p) && Saturated(src, p, p)
    ensures initialCheck && p + margin >= |src| ==> !RunsPast(src, p, length, margin, initialCheck, room)
  {
  }

  lemma PastHere(src: seq<byte>, p: nat, length: nat, margin: nat, initialCheck: bool, room: nat, q: nat)
    requires p <= q < |src| && Saturated(src, p, q) && (q > p ==> q + margin <= |src|) && (initialCheck ==> p + margin < |src|)
    requires NotPast(src, p, length, margin, room, q)
    ensures length + 255 * (q - p) > room ==> RunsPast(src, p, length, margin, initialCheck, room)
    ensures length + 255 * (q - p) <= room ==> NotPast(src, p, length, margin, room, q + 1)
  {
    hide Saturated;
    assert length + 255 * (q - p) > room ==> PastAt(src, p, length, margin, room, q);
  }

  lemma PastTheEnd(src: seq<byte>, p: nat, length: nat, margin: nat, initialCheck: bool, room: nat)
    requires p <= |src| && NotPast(src, p, length, margin, room, |src|)
    ensures !RunsPast(src, p, length, margin, initialCheck, room)
  {
    hide PastAt;
  }

  lemma SaturatedMore(src: seq<byte>, p: nat, q: nat)
    requires p <= q < |src| && Saturated(src, p, q) && src[q] == 255
    ensures Saturated(src, p, q + 1)
  {
  }

  function Behind(f: Field, length: nat): Field {
    match f
    case Field(v, next) => Field(v + length, next)
    case NoField => NoField
  }

  lemma ExtensionEnds(src: seq<byte>, p: nat)
    ensures p >= |src| ==> ReadExtension(src, p).NoField?
    ensures ReadExtension(src, p).Field? ==> p < ReadExtension(src, p).next <= |src|
  {
    if ReadExtension(src, p).Field? { ReadIsExtension(src, p); }
  }

  lemma ExtensionUnfold(src: seq<byte>, p: nat)
    requires p < |src|
    ensures ReadExtension(src, p) == if src[p] == 255 then Behind(ReadExtension(src, p + 1), 255) else Field(src[p], p + 1)
  {
  }

  lemma BehindTheEnd(src: seq<byte>, p: nat, length: nat, margin: nat, initialCheck: bool, room: nat, at: nat)
    requires p < at <= |src| && NotPast(src, p, length, margin, room, at)
    requires src[at - 1] != 255 || at + margin > |src|
    ensures !RunsPast(src, p, length, margin, initialCheck, room)
  {
    forall q | p <= q < |src| ensures !PastAt(src, p, length, margin, room, q) {
      if q >= at {
        assert Saturated(src, p, q) ==> src[at - 1] == 255;
      }
    }
  }

  /** The run of literals is the first thing refused, and for its length: its sum
      passes the room while it is read, or it is read clear of the margin, its
      bytes are there, and there is no room for them. */
  ghost predicate LiteralsPass(src: seq<byte>, p: nat, nibble: nat, room: nat) {
    var f := ReadLength(src, p, nibble);
    || (nibble == RUN_MASK && RunsPast(src, p, RUN_MASK, LITERAL_READ_MARGIN, true, room))
    || (f.Field? && (nibble == RUN_MASK ==> f.next + LITERAL_READ_MARGIN <= |src|) && f.next + f.value <= |src| && f.value > room)
  }

  /** The same of a match, whose bytes need not be there. */
  ghost predicate MatchPasses(src: seq<byte>, p: nat, nibble: nat, room: nat) {
    var f := ReadLength(src, p, nibble);
    || (nibble == RUN_MASK && RunsPast(src, p, RUN_MASK + MIN_MATCH, MATCH_READ_MARGIN, false, room))
    || (f.Field? && (nibble == RUN_MASK ==> f.next + MATCH_READ_MARGIN <= |src|) && f.value + MIN_MATCH > room)
  }

  /** The output is what the sequence here is refused for: its run passes the room,
      or behind a run that does not, with slack for a match on both sides and an
      offset inside the output, the match passes what is left. */
  ghost predicate TooSmall(src: seq<byte>, cap: nat, p: nat, d: nat)
    requires d <= cap
  {
    p < |src|
    && var f := ReadLength(src, p + 1, src[p] / 16);
       || LiteralsPass(src, p + 1, src[p] / 16, cap - d)
       || (&& f.Field? && (src[p] as nat / 16 == RUN_MASK ==> f.next + LITERAL_READ_MARGIN <= |src|)
           && d + f.value + MIN_TRAILING_SLACK_DST <= cap && f.next + f.value + MIN_TRAILING_SLACK_SRC <= |src|
           && 1 <= OffsetAt(src, f.next + f.value) <= d + f.value
           && MatchPasses(src, f.next + f.value + 2, src[p] % 16, cap - d - f.value))
  }

  /** An extension that is read to its end is worth all that was read before. */
  lemma {:induction false} PastIsLess(src: seq<byte>, p: nat, q: nat)
    requires p <= q < |src| && Saturated(src, p, q) && ReadExtension(src, p).Field?
    ensures ReadExtension(src, p).value >= 255 * (q - p)
    decreases q - p
  {
    if p < q { PastIsLess(src, p + 1, q); }
  }

  lemma RunsPastIsMore(src: seq<byte>, p: nat, length: nat, margin: nat, initialCheck: bool, room: nat)
    requires RunsPast(src, p, length, margin, initialCheck, room) && ReadExtension(src, p).Field?
    ensures length + ReadExtension(src, p).value > room
  {
    var q :| p <= q < |src| && PastAt(src, p, length, margin, room, q);
    PastIsLess(src, p, q);
  }

  /** Where the output is what is refused, nothing is well formed. */
  lemma TooSmallStops(src: seq<byte>, cap: nat, p: nat, d: nat)
    requires d <= cap && TooSmall(src, cap, p, d)
    ensures !HasSequence(src, cap, p, d) && !HasTail(src, cap, p, d)
  {
    hide ReadExtension, RunsPast, HasSequence, HasTail, ReadSequence, Margins;
    Rungs(src, cap, p, d);
    var f := ReadLength(src, p + 1, src[p] / 16);
    if f.Field? {
      if src[p] as nat / 16 == RUN_MASK && RunsPast(src, p + 1, RUN_MASK, LITERAL_READ_MARGIN, true, cap - d) {
        RunsPastIsMore(src, p + 1, RUN_MASK, LITERAL_READ_MARGIN, true, cap - d);
      } else if d + f.value <= cap && f.next + f.value + 2 <= |src| {
        var q, left := f.next + f.value + 2, cap - d - f.value;
        if src[p] as nat % 16 == RUN_MASK && ReadExtension(src, q).Field?
           && RunsPast(src, q, RUN_MASK + MIN_MATCH, MATCH_READ_MARGIN, false, left) {
          RunsPastIsMore(src, q, RUN_MASK + MIN_MATCH, MATCH_READ_MARGIN, false, left);
        }
      }
    }
  }

  lemma TwoBytes(lo: byte, hi: byte)
    ensures BitOr(lo, Shl(hi, 8)) == lo + 0x100 * hi
  {
    var k := 8;
    ByteShifts(hi);
    OrIsAddition(lo, k, hi);
  }
}
