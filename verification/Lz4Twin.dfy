/** The sequential LZ4 executor, and what the sequences parsed so far amount to. */
module Lz4Twin {
  import opened Bits
  import opened Cudec
  import opened Lz77
  import opened Lz4Format
  import opened Lz4Block
  import opened DecodeSequences

  // ----- the sequences parsed so far -----

  /** `sequences` lie end to end from one position to another. */
  ghost predicate Path(src: seq<byte>, cap: nat, p: nat, d: nat, sequences: seq<Sequence>, p': nat, d': nat)
    decreases |sequences|
  {
    if sequences == [] then p == p' && d == d'
    else
      var s := sequences[0];
      && SequenceAt(src, cap, p, d, s)
      && Path(src, cap, p + |EncodeSequence(s)|, d + |s.literals| + s.matchLen, sequences[1..], p', d')
  }

  lemma {:induction false} PathOneMore(src: seq<byte>, cap: nat, p: nat, d: nat, sequences: seq<Sequence>, p': nat, d': nat, s: Sequence)
    requires Path(src, cap, p, d, sequences, p', d') && SequenceAt(src, cap, p', d', s)
    ensures Path(src, cap, p, d, sequences + [s], p' + |EncodeSequence(s)|, d' + |s.literals| + s.matchLen)
    decreases |sequences|
  {
    hide SequenceAt;
    if sequences == [] {
      assert ([s])[1..] == [];
    } else {
      var t := sequences[0];
      assert Legal(t) by { LegalAt(src, cap, p, d, t); }
      PathOneMore(src, cap, p + |EncodeSequence(t)|, d + |t.literals| + t.matchLen, sequences[1..], p', d', s);
      assert (sequences + [s])[1..] == sequences[1..] + [s];
    }
  }

  lemma LegalAt(src: seq<byte>, cap: nat, p: nat, d: nat, s: Sequence)
    requires SequenceAt(src, cap, p, d, s)
    ensures Legal(s)
  {
  }

  function Join(sequences: seq<Sequence>, b: Block): Block {
    b.(sequences := sequences + b.sequences)
  }

  /** Whatever parses from where a path ends parses, behind the path, from where
      it began; and nothing else does. */
  lemma {:induction false} PathParses(src: seq<byte>, cap: nat, p: nat, d: nat, sequences: seq<Sequence>, p': nat, d': nat, b: Block)
    requires Path(src, cap, p, d, sequences, p', d') && Parses(src, cap, p', d', b)
    ensures Parses(src, cap, p, d, Join(sequences, b))
    decreases |sequences|
  {
    hide SequenceAt, TailAt, EncodeSequence;
    if sequences == [] {
      assert Join(sequences, b) == b;
    } else {
      var t := sequences[0];
      LegalAt(src, cap, p, d, t);
      PathParses(src, cap, p + |EncodeSequence(t)|, d + |t.literals| + t.matchLen, sequences[1..], p', d', b);
      assert Rest(Join(sequences, b)) == Join(sequences[1..], b);
    }
  }

  lemma {:induction false} ParsesFollows(src: seq<byte>, cap: nat, p: nat, d: nat, sequences: seq<Sequence>, p': nat, d': nat, b: Block)
    returns (rest: Block)
    requires Path(src, cap, p, d, sequences, p', d') && Parses(src, cap, p, d, b)
    ensures b == Join(sequences, rest) && Parses(src, cap, p', d', rest)
    decreases |sequences|
  {
    hide SequenceAt, TailAt, EncodeSequence;
    if sequences == [] {
      assert Join([], b) == b;
      rest := b;
    } else {
      var t := sequences[0];
      LegalAt(src, cap, p, d, t);
      FirstIsForced(src, cap, p, d, t, b);
      rest := ParsesFollows(src, cap, p + |EncodeSequence(t)|, d + |t.literals| + t.matchLen, sequences[1..], p', d', Rest(b));
      assert b.sequences == [t] + Rest(b).sequences;
      assert sequences == [t] + sequences[1..];
    }
  }

  lemma FirstIsForced(src: seq<byte>, cap: nat, p: nat, d: nat, s: Sequence, b: Block)
    requires SequenceAt(src, cap, p, d, s) && Parses(src, cap, p, d, b)
    ensures b.sequences != [] && b.sequences[0] == s
  {
    hide SequenceAt, TailAt, HasSequence, HasTail, TheSequence, TheTail;
    SequenceOrTail(src, cap, p, d);
    TheOnlySequence(src, cap, p, d, s);
    if b.sequences == [] {
      TheOnlyTail(src, cap, p, d, b.tail, b.nibble);
    } else {
      TheOnlySequence(src, cap, p, d, b.sequences[0]);
    }
  }

  // ----- what they have written -----

  ghost function Written(out: seq<byte>, sequences: seq<Sequence>): (r: seq<byte>)
    requires Reaches(|out|, sequences)
    ensures |r| == |out| + SequenceBytes(sequences)
  {
    Output(out, Block(sequences, [], 0))
  }

  lemma {:induction false} PathReaches(src: seq<byte>, cap: nat, p: nat, d: nat, sequences: seq<Sequence>, p': nat, d': nat)
    requires Path(src, cap, p, d, sequences, p', d')
    ensures Reaches(d, sequences) && d' == d + SequenceBytes(sequences)
    ensures p + 3 * |sequences| <= p'
    decreases |sequences|
  {
    if sequences != [] {
      var t := sequences[0];
      PathReaches(src, cap, p + |EncodeSequence(t)|, d + |t.literals| + t.matchLen, sequences[1..], p', d');
    }
  }

  lemma {:induction false} JoinReaches(d: nat, a: seq<Sequence>, b: seq<Sequence>)
    ensures Reaches(d, a + b) <==> Reaches(d, a) && Reaches(d + SequenceBytes(a), b)
    ensures SequenceBytes(a + b) == SequenceBytes(a) + SequenceBytes(b)
    decreases |a|
  {
    if a == [] {
      assert a + b == b;
    } else {
      assert (a + b)[1..] == a[1..] + b && (a + b)[0] == a[0];
      JoinReaches(d + |a[0].literals| + a[0].matchLen, a[1..], b);
    }
  }

  lemma {:induction false} JoinOutput(out: seq<byte>, a: seq<Sequence>, b: Block)
    requires Reaches(|out|, a) && Reaches(|out| + SequenceBytes(a), b.sequences)
    ensures Reaches(|out|, Join(a, b).sequences) && OutBytes(Join(a, b)) == SequenceBytes(a) + OutBytes(b)
    ensures Output(out, Join(a, b)) == Output(Written(out, a), b)
    decreases |a|
  {
    hide CopyMatch;
    JoinReaches(|out|, a, b.sequences);
    if a == [] {
      assert Join(a, b) == b && out + [] == out;
    } else {
      var s := a[0];
      var next := CopyMatch(out + s.literals, s.offset, s.matchLen);
      JoinOutput(next, a[1..], b);
      assert Rest(Join(a, b)) == Join(a[1..], b);
      assert Output(out, Join(a, b)) == Output(next, Join(a[1..], b));
      assert Rest(Block(a, [], 0)) == Block(a[1..], [], 0);
      assert Written(out, a) == Written(next, a[1..]);
    }
  }

  lemma WrittenOneMore(out: seq<byte>, a: seq<Sequence>, s: Sequence)
    requires Reaches(|out|, a) && 1 <= s.offset <= |out| + SequenceBytes(a) + |s.literals|
    ensures Reaches(|out|, a + [s])
    ensures Written(out, a + [s]) == CopyMatch(Written(out, a) + s.literals, s.offset, s.matchLen)
  {
    hide *;
    OneSequence(|out| + SequenceBytes(a), s);
    WrittenLength(out, a);
    JoinReaches(|out|, a, [s]);
    JoinOutput(out, a, Block([s], [], 0));
    JoinIs(a, s);
  }

  lemma WrittenLength(out: seq<byte>, a: seq<Sequence>)
    requires Reaches(|out|, a)
    ensures |Written(out, a)| == |out| + SequenceBytes(a)
  {
  }

  lemma JoinIs(a: seq<Sequence>, s: Sequence)
    ensures Join(a, Block([s], [], 0)) == Block(a + [s], [], 0)
    ensures forall out: seq<byte> :: Reaches(|out|, a + [s]) ==> Written(out, a + [s]) == Output(out, Block(a + [s], [], 0))
  {
  }

  lemma OneSequence(d: nat, s: Sequence)
    requires 1 <= s.offset <= d + |s.literals|
    ensures Reaches(d, [s])
    ensures forall out: seq<byte> :: |out| == d ==>
                                       Output(out, Block([s], [], 0)) == CopyMatch(out + s.literals, s.offset, s.matchLen)
  {
    hide CopyMatch;
    assert [s][1..] == [];
    forall out: seq<byte> | |out| == d
      ensures Output(out, Block([s], [], 0)) == CopyMatch(out + s.literals, s.offset, s.matchLen)
    {
      var next := CopyMatch(out + s.literals, s.offset, s.matchLen);
      assert Rest(Block([s], [], 0)) == Block([], [], 0);
      assert Output(next, Block([], [], 0)) == next + [] == next;
    }
  }

  // ----- the executor -----

  /** `out` holds what `sequences` have written, and zeros behind it. */
  ghost predicate Executed(src: seq<byte>, cap: nat, sequences: seq<Sequence>, p: nat, d: nat, out: seq<byte>) {
    && Path(src, cap, 0, 0, sequences, p, d) && d <= |out| == cap
    && Reaches(0, sequences) && out[..d] == Written([], sequences)
    && forall i :: d <= i < cap ==> out[i] == 0
  }

  /** Behind these sequences neither another nor a tail is well formed. */
  ghost predicate Stops(src: seq<byte>, cap: nat, sequences: seq<Sequence>, status: Status) {
    exists p: nat, d: nat ::
      && Path(src, cap, 0, 0, sequences, p, d) && d <= cap && !HasSequence(src, cap, p, d) && !HasTail(src, cap, p, d)
      && status == if TooSmall(src, cap, p, d) then OutputTooSmall else CorruptInput
  }

  /** Some sequences lie end to end from the start, and behind them the output is
      what the next is refused for. */
  ghost predicate RunsOut(src: seq<byte>, cap: nat) {
    exists sequences: seq<Sequence>, p: nat, d: nat :: Path(src, cap, 0, 0, sequences, p, d) && d <= cap && TooSmall(src, cap, p, d)
  }

  lemma {:induction false} PathsMeet(src: seq<byte>, cap: nat, p: nat, d: nat, a: seq<Sequence>, p1: nat, d1: nat,
                                     b: seq<Sequence>, p2: nat, d2: nat)
    requires Path(src, cap, p, d, a, p1, d1) && !HasSequence(src, cap, p1, d1)
    requires Path(src, cap, p, d, b, p2, d2) && !HasSequence(src, cap, p2, d2)
    ensures a == b && p1 == p2 && d1 == d2
    decreases |a|
  {
    hide HasSequence, SequenceAt;
    if a != [] { TheOnlySequence(src, cap, p, d, a[0]); }
    if b != [] { TheOnlySequence(src, cap, p, d, b[0]); }
    if a != [] && b != [] {
      var s := a[0];
      LegalAt(src, cap, p, d, s);
      PathsMeet(src, cap, p + |EncodeSequence(s)|, d + |s.literals| + s.matchLen, a[1..], p1, d1, b[1..], p2, d2);
      assert a == [s] + a[1..] && b == [s] + b[1..];
    }
  }

  /** The status a stop names is the only one. */
  lemma StopsDecides(src: seq<byte>, cap: nat, sequences: seq<Sequence>, status: Status)
    requires Stops(src, cap, sequences, status)
    ensures status == if RunsOut(src, cap) then OutputTooSmall else CorruptInput
  {
    hide Path, HasSequence, HasTail, TooSmall;
    var p: nat, d: nat :| && Path(src, cap, 0, 0, sequences, p, d) && d <= cap && !HasSequence(src, cap, p, d) && !HasTail(src, cap, p, d)
                          && status == if TooSmall(src, cap, p, d) then OutputTooSmall else CorruptInput;
    if RunsOut(src, cap) {
      var a: seq<Sequence>, q: nat, e: nat :| Path(src, cap, 0, 0, a, q, e) && e <= cap && TooSmall(src, cap, q, e);
      TooSmallStops(src, cap, q, e);
      PathsMeet(src, cap, 0, 0, sequences, p, d, a, q, e);
    }
  }

  lemma AcceptedDoesNotRunOut(src: seq<byte>, cap: nat, b: Block)
    requires Accepted(src, cap, b)
    ensures !RunsOut(src, cap)
  {
    hide Path, HasSequence, HasTail, TooSmall, Accepted;
    forall a: seq<Sequence>, q: nat, e: nat | Path(src, cap, 0, 0, a, q, e) && e <= cap ensures !TooSmall(src, cap, q, e) {
      if TooSmall(src, cap, q, e) {
        TooSmallStops(src, cap, q, e);
        NothingFollows(src, cap, a, q, e);
      }
    }
  }

  /** One call of the parser, and what it hands out executed. */
  method TwinStep(parser: Lz4Parser, bytes: array<byte>, ghost sequences: seq<Sequence>)
    returns (status: Status, done: bool, ghost sequences': seq<Sequence>, ghost block: Block)
    requires parser.Valid() && bytes.Length == parser.dstCapacity
    requires Executed(parser.src, parser.dstCapacity, sequences, parser.srcPos, parser.dstPos, bytes[..])
    modifies parser, bytes
    ensures parser.Valid() && (done ==> status == Okay)
    ensures status != Okay ==> sequences' == sequences && Stops(parser.src, parser.dstCapacity, sequences, status)
    ensures status != Okay ==> forall b :: !Accepted(parser.src, parser.dstCapacity, b)
    ensures status == Okay && !done ==>
              && old(parser.srcPos) < parser.srcPos && |sequences'| == |sequences| + 1
              && Executed(parser.src, parser.dstCapacity, sequences', parser.srcPos, parser.dstPos, bytes[..])
    ensures done ==>
              && Accepted(parser.src, parser.dstCapacity, block) && Reaches(0, block.sequences)
              && |block.sequences| == |sequences| && parser.dstPos == OutBytes(block) <= bytes.Length
              && bytes[..parser.dstPos] == Output([], block)
              && forall i :: parser.dstPos <= i < bytes.Length ==> bytes[i] == 0
  {
    hide Begin, End, HasSequence, HasTail, ReadSequence, ReadLength, TheSequence, Output, Reaches, Path, Parses, Written, CopyMatch, TooSmall, OutBytes, SequenceBytes, Accepted;
    ghost var stream, cap, p, d := parser.src, parser.dstCapacity, parser.srcPos, parser.dstPos;
    sequences', block := sequences, Block([], [], 0);
    ghost var out0 := bytes[..];
    assert bytes[..d] == out0[..d];
    var sequence;
    ghost var at;
    status, done, sequence, at := parser.Next();
    if status != Okay {
      NothingFollows(stream, cap, sequences, p, d);
      assert Stops(stream, cap, sequences, status);
      done := false;
      return;
    }
    NextInBounds(stream, cap, p, d, sequence, done, at, parser.srcPos, parser.dstPos);
    ExecuteSequence(parser.src, bytes, sequence);
    if done {
      block := TailCloses(stream, cap, sequences, p, d, at);
      return;
    }
    SequenceExtends(stream, cap, sequences, p, d);
    sequences' := sequences + [TheSequence(stream, p)];
    assert bytes[..][..parser.dstPos] == bytes[..parser.dstPos];
  }

  /** Decode a whole block. It succeeds if and only if the stream encodes a block
      within every margin, and then writes what that block says, in one call a
      sequence and one for the tail; no more calls are made than a third of the
      stream has bytes, plus one. When it refuses, `block` holds the sequences
      executed until then, one a call; the next call is the one that refused. */
  method Lz4TwinDecode(stream: seq<byte>, capacity: nat)
    returns (status: Status, size: nat, bytes: array<byte>, ghost block: Block, ghost calls: nat)
    requires Fits64(stream, capacity)
    ensures fresh(bytes) && bytes.Length == capacity
    ensures status == Okay ==>
              && Accepted(stream, capacity, block) && Reaches(0, block.sequences)
              && size == OutBytes(block) <= capacity && bytes[..size] == Output([], block)
              && forall i :: size <= i < capacity ==> bytes[i] == 0
    ensures status != Okay ==> forall b :: !Accepted(stream, capacity, b)
    ensures status != Okay ==> Stops(stream, capacity, block.sequences, status)
    ensures status == OutputTooSmall <==> RunsOut(stream, capacity)
    ensures status == Okay || status == CorruptInput || status == OutputTooSmall
    ensures 3 * (calls - 1) <= |stream| && calls == |block.sequences| + 1
  {
    hide Executed, Output, Reaches, Path, Written, OutBytes, Accepted, Stops, RunsOut;
    size, calls, block := 0, 0, Block([], [], 0);
    bytes := new byte[capacity](_ => 0);
    var parser := new Lz4Parser(stream, capacity);
    ghost var sequences: seq<Sequence> := [];
    ExecutedNothing(stream, capacity, bytes[..]);
    while true
      invariant parser.Valid() && parser.src == stream && parser.dstCapacity == capacity
      invariant fresh(parser) && fresh(bytes) && bytes.Length == capacity && calls == |sequences|
      invariant Executed(stream, capacity, sequences, parser.srcPos, parser.dstPos, bytes[..])
      decreases |stream| - parser.srcPos
    {
      ThreeBytesEach(stream, capacity, sequences, parser.srcPos, parser.dstPos, bytes[..]);
      calls := calls + 1;
      var done;
      status, done, sequences, block := TwinStep(parser, bytes, sequences);
      if status != Okay {
        block := Block(sequences, [], 0);
        StopsDecides(stream, capacity, sequences, status);
        return;
      }
      if done {
        AcceptedDoesNotRunOut(stream, capacity, block);
        size := parser.dstPos;
        return;
      }
    }
  }

  lemma ExecutedNothing(src: seq<byte>, cap: nat, out: seq<byte>)
    requires |out| == cap && forall i :: 0 <= i < cap ==> out[i] == 0
    ensures Executed(src, cap, [], 0, 0, out)
  {
    PathBegins(src, cap);
  }

  lemma ThreeBytesEach(src: seq<byte>, cap: nat, sequences: seq<Sequence>, p: nat, d: nat, out: seq<byte>)
    requires Executed(src, cap, sequences, p, d, out)
    ensures 3 * |sequences| <= p
  {
    hide Path, Reaches, Written;
    PathReaches(src, cap, 0, 0, sequences, p, d);
  }

  lemma PathBegins(src: seq<byte>, cap: nat)
    ensures Path(src, cap, 0, 0, [], 0, 0) && Reaches(0, []) && Written([], []) == []
  {
  }

  lemma NothingFollows(src: seq<byte>, cap: nat, sequences: seq<Sequence>, p: nat, d: nat)
    requires Path(src, cap, 0, 0, sequences, p, d)
    requires !HasSequence(src, cap, p, d) && !HasTail(src, cap, p, d)
    ensures forall b :: !Accepted(src, cap, b)
  {
    hide HasSequence, HasTail, SequenceAt, TailAt;
    forall b ensures !Accepted(src, cap, b) {
      if Accepted(src, cap, b) {
        var rest := ParsesFollows(src, cap, 0, 0, sequences, p, d, b);
        if rest.sequences == [] {
          TheOnlyTail(src, cap, p, d, rest.tail, rest.nibble);
        } else {
          TheOnlySequence(src, cap, p, d, rest.sequences[0]);
        }
        assert false;
      }
    }
  }

  /** Every range the executor is handed lies inside its buffer. */
  lemma NextInBounds(src: seq<byte>, cap: nat, p: nat, d: nat, q: DecodeSequence, done: bool, at: nat, p': nat, d': nat)
    requires done ==> HasTail(src, cap, p, d) && at <= |src| && q == DecodeSequence(at, d, |src| - at, 0, d', 0)
                      && d' == d + (|src| - at) && d' <= cap
    requires !done ==>
               && HasSequence(src, cap, p, d)
               && var r := ReadSequence(src, p);
                  && p' == r.next && d' == d + r.litLen + r.field + MIN_MATCH && d' <= cap
                  && q == DecodeSequence(r.litAt, d, r.litLen, d + r.litLen - r.offset, d + r.litLen, r.field + MIN_MATCH)
    ensures q.literalsSrc + q.literalsLen <= |src| && q.matchDst == q.literalsDst + q.literalsLen && q.literalsDst == d
    ensures Begin(q) == d && End(q) == d'
    ensures q.matchDst + q.matchLen == d' <= cap && (q.matchLen == 0 || q.matchSrc < q.matchDst)
    ensures !done ==>
              var s := TheSequence(src, p);
              && q.matchLen > 0 && s.literals == src[q.literalsSrc..q.literalsSrc + q.literalsLen]
              && s.offset == q.matchDst - q.matchSrc && s.matchLen == q.matchLen && p < p'
  {
    if !done { ReadingBounds(src, p); }
  }

  lemma SequenceExtends(src: seq<byte>, cap: nat, sequences: seq<Sequence>, p: nat, d: nat)
    requires Path(src, cap, 0, 0, sequences, p, d) && HasSequence(src, cap, p, d)
    ensures ReadSequence(src, p).Reading?
    ensures var s, r := TheSequence(src, p), ReadSequence(src, p);
            && Path(src, cap, 0, 0, sequences + [s], r.next, d + r.litLen + r.field + MIN_MATCH)
            && Reaches(0, sequences) && Reaches(0, sequences + [s])
            && 1 <= s.offset <= |Written([], sequences)| + |s.literals|
            && Written([], sequences + [s]) == CopyMatch(Written([], sequences) + s.literals, s.offset, s.matchLen)
  {
    hide Path, Output, CopyMatch, Reaches, SequenceAt, EncodeSequence, ReadSequence, At;
    var s := TheSequence(src, p);
    ReadingBounds(src, p);
    TheOnlySequence(src, cap, p, d, s);
    PathReaches(src, cap, 0, 0, sequences, p, d);
    PathOneMore(src, cap, 0, 0, sequences, p, d, s);
    WrittenOneMore([], sequences, s);
  }

  lemma TailCloses(src: seq<byte>, cap: nat, sequences: seq<Sequence>, p: nat, d: nat, at: nat) returns (b: Block)
    requires Path(src, cap, 0, 0, sequences, p, d) && HasTail(src, cap, p, d)
    requires at == ReadLength(src, p + 1, src[p] / 16).next <= |src|
    ensures Accepted(src, cap, b) && Reaches(0, sequences) && Reaches(0, b.sequences)
    ensures OutBytes(b) == d + (|src| - at) && Output([], b) == Written([], sequences) + src[at..]
    ensures |b.sequences| == |sequences|
  {
    hide *;
    TailIsRest(src, cap, p, d);
    var rest := Block([], TheTail(src, p), src[p] % 16);
    TheOnlyTail(src, cap, p, d, rest.tail, rest.nibble);
    b := Join(sequences, rest);
    PathReaches(src, cap, 0, 0, sequences, p, d);
    NoSequencesReach(d, rest);
    JoinCounts(sequences, rest);
    TailParses(src, cap, p, d, rest);
    AcceptedIsParsed(src, cap, b);
    PathParses(src, cap, 0, 0, sequences, p, d, rest);
    JoinOutput([], sequences, rest);
  }

  lemma TailIsRest(src: seq<byte>, cap: nat, p: nat, d: nat)
    requires HasTail(src, cap, p, d)
    ensures p < |src|
    ensures var at := ReadLength(src, p + 1, src[p] / 16).next; at <= |src| ==> TheTail(src, p) == src[at..]
  {
  }

  lemma NoSequencesReach(d: nat, b: Block)
    requires b.sequences == []
    ensures Reaches(d, b.sequences) && OutBytes(b) == |b.tail|
    ensures forall out: seq<byte> :: |out| == d ==> Output(out, b) == out + b.tail
  {
  }

  lemma AcceptedIsParsed(src: seq<byte>, cap: nat, b: Block)
    ensures Parses(src, cap, 0, 0, b) <==> Accepted(src, cap, b)
  {
  }

  lemma JoinCounts(sequences: seq<Sequence>, rest: Block)
    ensures |Join(sequences, rest).sequences| == |sequences| + |rest.sequences|
  {
  }

  lemma TailParses(src: seq<byte>, cap: nat, p: nat, d: nat, b: Block)
    requires b.sequences == [] && TailAt(src, cap, p, d, b.tail, b.nibble)
    ensures Parses(src, cap, p, d, b)
  {
    hide TailAt;
  }
}
