/** The element every byte-oriented parser hands its executor, and what executing
    one means. */
module DecodeSequences {
  import opened Bits
  import opened Lz77

  /** Ranges to copy: literals out of the source, then a match out of the output. */
  datatype DecodeSequence = DecodeSequence(literalsSrc: nat, literalsDst: nat, literalsLen: nat, matchSrc: nat, matchDst: nat, matchLen: nat)

  const NO_SEQUENCE := DecodeSequence(0, 0, 0, 0, 0, 0)

  /** A plain copy of bytes to their place. */
  method CopyOut(out: array<byte>, at: nat, bytes: seq<byte>)
    requires at + |bytes| <= out.Length
    modifies out
    ensures out[..] == old(out[..])[..at] + bytes + old(out[..])[at + |bytes|..]
  {
    ghost var was := out[..];
    for i := 0 to |bytes|
      invariant out[..at] == was[..at] && out[at..at + i] == bytes[..i]
      invariant out[at + i..] == was[at + i..]
    {
      out[at + i] := bytes[i];
      assert out[at + i..] == [bytes[i]] + out[at + i + 1..];
      assert was[at + i..] == [was[at + i]] + was[at + i + 1..];
    }
    assert out[..] == out[..at] + out[at..at + |bytes|] + out[at + |bytes|..];
    assert bytes[..|bytes|] == bytes;
  }

  method CopyLiterals(src: seq<byte>, out: array<byte>, at: nat, d: nat, n: nat)
    requires at + n <= |src| && d + n <= out.Length
    modifies out
    ensures out[..d + n] == old(out[..d]) + src[at..at + n]
    ensures forall i :: d + n <= i < out.Length ==> out[i] == old(out[i])
  {
    for i := 0 to n
      invariant out[..d + i] == old(out[..d]) + src[at..at + i]
      invariant forall j :: d + i <= j < out.Length ==> out[j] == old(out[j])
    {
      out[d + i] := src[at + i];
    }
  }

  /** Where an element's bytes begin and end. */
  function Begin(q: DecodeSequence): nat {
    if q.literalsLen == 0 && q.matchLen > 0 then q.matchDst else q.literalsDst
  }

  function End(q: DecodeSequence): nat {
    if q.matchLen == 0 then q.literalsDst + q.literalsLen else q.matchDst + q.matchLen
  }

  /** Copy the literals, then the match byte by byte; either half may be empty, and
      an empty half's positions are never looked at. */
  method ExecuteSequence(src: seq<byte>, out: array<byte>, q: DecodeSequence)
    requires q.literalsSrc + q.literalsLen <= |src| && q.literalsDst + q.literalsLen <= out.Length
    requires q.matchLen == 0 || q.literalsLen == 0 || q.matchDst == q.literalsDst + q.literalsLen
    requires q.matchDst + q.matchLen <= out.Length && (q.matchLen == 0 || q.matchSrc < q.matchDst)
    modifies out
    ensures var literals := src[q.literalsSrc..q.literalsSrc + q.literalsLen];
            out[..End(q)]
            == if q.matchLen == 0 then old(out[..Begin(q)]) + literals
               else CopyMatch(old(out[..Begin(q)]) + literals, q.matchDst - q.matchSrc, q.matchLen)
    ensures forall i :: End(q) <= i < out.Length ==> out[i] == old(out[i])
  {
    hide CopyMatch;
    ghost var was, literals := out[..], src[q.literalsSrc..q.literalsSrc + q.literalsLen];
    CopyLiterals(src, out, q.literalsSrc, q.literalsDst, q.literalsLen);
    if q.matchLen != 0 {
      if q.literalsLen == 0 {
        Unchanged(out[..], was, q.literalsDst, literals);
      }
      assert out[..q.matchDst] == was[..Begin(q)] + literals;
      CopyBytes(out, q.matchDst, q.matchSrc, q.matchLen);
    }
  }

  lemma Unchanged(out: seq<byte>, was: seq<byte>, d: nat, nothing: seq<byte>)
    requires |out| == |was| && d <= |out| && nothing == []
    requires out[..d] == was[..d] + nothing && forall i :: d <= i < |out| ==> out[i] == was[i]
    ensures out == was && forall k :: 0 <= k <= |was| ==> was[..k] + nothing == was[..k]
  {
    forall i | 0 <= i < d ensures out[i] == was[i] {
      assert out[i] == out[..d][i];
    }
  }
}
