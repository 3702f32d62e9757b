/** LZ77 tokens, their in-order meaning, and what an output buffer must satisfy
    when the copies are performed late. */
module Lz77 {
  import opened Bits

  /** A literal byte, a match, or a match whose distance has not arrived yet:
      `lane` is the lane that will read it. */
  datatype Token =
    | Literal(b: byte)
    | Match(len: nat, dist: nat)
    | Reserved(len: nat, lane: nat)
  {
    function Length(): nat {
      if Literal? then 1 else len
    }
  }

  function OutLen(tokens: seq<Token>): nat {
    if tokens == [] then 0 else OutLen(tokens[..|tokens| - 1]) + tokens[|tokens| - 1].Length()
  }

  /** Where a token's output begins. */
  function Start(tokens: seq<Token>, j: nat): nat
    requires j <= |tokens|
  {
    OutLen(tokens[..j])
  }

  predicate Settled(tokens: seq<Token>) {
    forall j :: 0 <= j < |tokens| ==> !tokens[j].Reserved?
  }

  /** No match reaches before the start of the output. */
  predicate WellFormed(tokens: seq<Token>) {
    Settled(tokens) &&
    forall j :: 0 <= j < |tokens| && tokens[j].Match? ==> 1 <= tokens[j].dist <= Start(tokens, j)
  }

  // ----- in-order execution -----

  /** A match appends bytes one at a time, each `dist` behind the end, so it may
      read what it has itself just written. */
  function CopyMatch(out: seq<byte>, dist: nat, len: nat): (r: seq<byte>)
    requires 1 <= dist <= |out|
    ensures |r| == |out| + len && r[..|out|] == out
    decreases len
  {
    if len == 0 then out else CopyMatch(out + [out[|out| - dist]], dist, len - 1)
  }

  function Execute(tokens: seq<Token>): (out: seq<byte>)
    requires WellFormed(tokens)
    ensures |out| == OutLen(tokens)
  {
    if tokens == [] then []
    else
      var n := |tokens| - 1;
      PrefixWellFormed(tokens, n);
      var before := Execute(tokens[..n]);
      assert Start(tokens, n) == |before|;
      match tokens[n]
      case Literal(b) => before + [b]
      case Match(len, dist) => CopyMatch(before, dist, len)
  }

  lemma PrefixStart(tokens: seq<Token>, n: nat, j: nat)
    requires j <= n <= |tokens|
    ensures Start(tokens[..n], j) == Start(tokens, j)
  {
    assert tokens[..n][..j] == tokens[..j];
  }

  lemma PrefixWellFormed(tokens: seq<Token>, n: nat)
    requires WellFormed(tokens) && n <= |tokens|
    ensures WellFormed(tokens[..n])
  {
    forall j | 0 <= j < n ensures Start(tokens[..n], j) == Start(tokens, j) {
      PrefixStart(tokens, n, j);
    }
  }

  /** The closed form a parallel gather uses: byte i of a match is byte i mod
      dist of the window before it. */
  lemma {:induction false} CopyIsPeriodic(out: seq<byte>, dist: nat, len: nat, i: nat)
    requires 1 <= dist <= |out| && i < len
    ensures CopyMatch(out, dist, len)[|out| + i] == out[|out| - dist + i % dist]
    decreases len
  {
    var next := out + [out[|out| - dist]];
    if i == 0 {
      assert CopyMatch(next, dist, len - 1)[..|next|] == next;
      assert CopyMatch(out, dist, len)[|out|] == next[|out|];
    } else {
      CopyIsPeriodic(next, dist, len - 1, i - 1);
      ModStep(i, dist);
    }
  }

  lemma ModStep(i: nat, d: nat)
    requires i >= 1 && d >= 1
    ensures i % d == if (i - 1) % d == d - 1 then 0 else (i - 1) % d + 1
  {
    var q, r := (i - 1) / d, (i - 1) % d;
    if r == d - 1 {
      MulStep(q, d);
      DivModUnique(i, d, q + 1, 0);
    } else {
      DivModUnique(i, d, q, r + 1);
    }
  }

  lemma MulStep(q: nat, d: nat)
    ensures (q + 1) * d == q * d + d
  {
  }

  // ----- a buffer that agrees with its tokens -----

  /** The part of the output a token speaks for says what the token says. A
      reservation says nothing yet. */
  predicate Holds(out: seq<byte>, tokens: seq<Token>, j: nat)
    requires j < |tokens| && OutLen(tokens) <= |out|
  {
    StartFits(tokens, j);
    var at := Start(tokens, j);
    match tokens[j]
    case Literal(b) => out[at] == b
    case Match(len, dist) => 1 <= dist <= at && forall i :: at <= i < at + len ==> out[i] == out[i - dist]
    case Reserved(_, _) => true
  }

  predicate Agrees(out: seq<byte>, tokens: seq<Token>) {
    OutLen(tokens) <= |out| && forall j :: 0 <= j < |tokens| ==> Holds(out, tokens, j)
  }

  lemma {:induction false} StartFits(tokens: seq<Token>, j: nat)
    requires j < |tokens|
    ensures Start(tokens, j) + tokens[j].Length() == Start(tokens, j + 1) <= OutLen(tokens)
  {
    assert tokens[..j + 1][..j] == tokens[..j];
    StartMono(tokens, j + 1, |tokens|);
    assert tokens[..|tokens|] == tokens;
  }

  lemma {:induction false} StartMono(tokens: seq<Token>, i: nat, j: nat)
    requires i <= j <= |tokens|
    ensures Start(tokens, i) <= Start(tokens, j)
  {
    if i < j {
      StartMono(tokens, i, j - 1);
      assert tokens[..j][..j - 1] == tokens[..j - 1];
    }
  }

  /** A token's truth depends only on the output below its end, and only on the
      tokens up to it. */
  lemma HoldsTransfers(out: seq<byte>, tokens: seq<Token>, out': seq<byte>, tokens': seq<Token>, j: nat)
    requires j < |tokens| && j < |tokens'| && tokens[j] == tokens'[j] && Start(tokens, j) == Start(tokens', j)
    requires OutLen(tokens) <= |out| && OutLen(tokens') <= |out'|
    requires forall i :: 0 <= i < Start(tokens, j + 1) && i < |out| && i < |out'| ==> out[i] == out'[i]
    requires Holds(out, tokens, j)
    ensures Holds(out', tokens', j)
  {
    StartFits(tokens, j);
    StartFits(tokens', j);
  }

  lemma AgreesPrefix(out: seq<byte>, tokens: seq<Token>, n: nat)
    requires Agrees(out, tokens) && n <= |tokens|
    ensures Agrees(out, tokens[..n])
  {
    StartMono(tokens, n, |tokens|);
    assert tokens[..|tokens|] == tokens;
    forall j | 0 <= j < n ensures Holds(out, tokens[..n], j) {
      PrefixStart(tokens, n, j);
      HoldsTransfers(out, tokens, out, tokens[..n], j);
    }
  }

  /** However late the copies came, a buffer that agrees with settled tokens is
      their in-order execution. */
  lemma {:induction false} AgreementIsExecution(out: seq<byte>, tokens: seq<Token>)
    requires Agrees(out, tokens) && Settled(tokens)
    ensures WellFormed(tokens) && out[..OutLen(tokens)] == Execute(tokens)
  {
    forall j | 0 <= j < |tokens| && tokens[j].Match? ensures 1 <= tokens[j].dist <= Start(tokens, j) {
      assert Holds(out, tokens, j);
    }
    if tokens != [] {
      var n := |tokens| - 1;
      AgreesPrefix(out, tokens, n);
      AgreementIsExecution(out, tokens[..n]);
      LastTokenExecutes(out, tokens);
    }
  }

  lemma LastTokenExecutes(out: seq<byte>, tokens: seq<Token>)
    requires tokens != [] && Agrees(out, tokens) && WellFormed(tokens)
    requires var before := tokens[..|tokens| - 1]; WellFormed(before) && out[..OutLen(before)] == Execute(before)
    ensures out[..OutLen(tokens)] == Execute(tokens)
  {
    hide Agrees, WellFormed, CopyMatch;
    var n := |tokens| - 1;
    var at := Start(tokens, n);
    LastHolds(out, tokens);
    if tokens[n].Match? {
      CopyByEquation(out, at, tokens[n].dist, tokens[n].len);
    } else {
      assert out[..at + 1] == out[..at] + [out[at]];
    }
  }

  lemma LastHolds(out: seq<byte>, tokens: seq<Token>)
    requires tokens != [] && Agrees(out, tokens) && WellFormed(tokens)
    ensures var n := |tokens| - 1;
            var at := Start(tokens, n);
            && at + tokens[n].Length() == OutLen(tokens) <= |out| && !tokens[n].Reserved?
            && (tokens[n].Literal? ==> out[at] == tokens[n].b)
            && (tokens[n].Match? ==> 1 <= tokens[n].dist <= at && forall i :: at <= i < at + tokens[n].len ==> out[i] == out[i - tokens[n].dist])
  {
    var n := |tokens| - 1;
    assert Holds(out, tokens, n);
    StartFits(tokens, n);
    assert tokens[..n + 1] == tokens;
  }

  /** A range in which every byte repeats the one `dist` before it is a copy. */
  lemma {:induction false} CopyByEquation(out: seq<byte>, at: nat, dist: nat, len: nat)
    requires 1 <= dist <= at && at + len <= |out|
    requires forall i :: at <= i < at + len ==> out[i] == out[i - dist]
    ensures out[..at + len] == CopyMatch(out[..at], dist, len)
    decreases len
  {
    if len > 0 {
      assert out[..at + 1] == out[..at] + [out[..at][at - dist]];
      CopyByEquation(out, at + 1, dist, len - 1);
    } else {
      assert out[..at + len] == out[..at];
    }
  }

  lemma AppendStarts(tokens: seq<Token>, t: Token)
    ensures OutLen(tokens + [t]) == OutLen(tokens) + t.Length()
    ensures forall j :: 0 <= j <= |tokens| ==> Start(tokens + [t], j) == Start(tokens, j)
  {
    assert (tokens + [t])[..|tokens|] == tokens;
    forall j | 0 <= j <= |tokens| ensures Start(tokens + [t], j) == Start(tokens, j) {
      assert (tokens + [t])[..j] == tokens[..j];
    }
  }

  /** Writing at or past the end of the tokens' output disturbs none of them. */
  lemma AppendAgrees(out: seq<byte>, tokens: seq<Token>, out': seq<byte>, t: Token)
    requires Agrees(out, tokens) && |out'| == |out| && OutLen(tokens) + t.Length() <= |out|
    requires out'[..OutLen(tokens)] == out[..OutLen(tokens)]
    requires t.Reserved? || (t.Literal? && out'[OutLen(tokens)] == t.b)
    ensures Agrees(out', tokens + [t])
  {
    AppendStarts(tokens, t);
    assert tokens[..|tokens|] == tokens;
    forall j | 0 <= j < |tokens| ensures Holds(out', tokens + [t], j) {
      StartFits(tokens, j);
      assert forall i :: 0 <= i < OutLen(tokens) ==> out'[..OutLen(tokens)][i] == out[..OutLen(tokens)][i];
      HoldsTransfers(out, tokens, out', tokens + [t], j);
    }
    assert Start(tokens + [t], |tokens|) == OutLen(tokens);
    assert Holds(out', tokens + [t], |tokens|);
  }

  /** A reservation is filled: every earlier token is settled, so every byte the
      copy reads is final, and no later token has read the hole. */
  lemma FillAgrees(out: seq<byte>, tokens: seq<Token>, out': seq<byte>, j: nat, dist: nat)
    requires Agrees(out, tokens) && |out'| == |out| && j < |tokens| && tokens[j].Reserved?
    requires forall k :: j < k < |tokens| ==> !tokens[k].Match?
    requires 1 <= dist <= Start(tokens, j)
    requires Start(tokens, j) + tokens[j].len <= |out|
    requires forall i :: Start(tokens, j) <= i < Start(tokens, j) + tokens[j].len ==> out'[i] == out'[i - dist]
    requires forall i :: 0 <= i < |out| && !(Start(tokens, j) <= i < Start(tokens, j) + tokens[j].len) ==> out'[i] == out[i]
    ensures Agrees(out', tokens[j := Match(tokens[j].len, dist)])
  {
    var filled := tokens[j := Match(tokens[j].len, dist)];
    SameLengths(tokens, filled);
    forall k | 0 <= k < |filled| ensures Holds(out', filled, k) {
      StartFits(tokens, k);
      StartFits(filled, k);
      if k < j {
        StartMono(tokens, k + 1, j);
        HoldsTransfers(out, tokens, out', filled, k);
      } else if k > j {
        StartFits(tokens, j);
        StartMono(tokens, j + 1, k);
        assert Holds(out, tokens, k);
      }
    }
  }

  lemma {:induction false} SameLengths(a: seq<Token>, b: seq<Token>)
    requires |a| == |b| && forall j :: 0 <= j < |a| ==> a[j].Length() == b[j].Length()
    ensures OutLen(a) == OutLen(b)
    ensures forall j :: 0 <= j <= |a| ==> Start(a, j) == Start(b, j)
  {
    forall j | 0 <= j <= |a| ensures Start(a, j) == Start(b, j) {
      SameLengthsUpTo(a, b, j);
    }
    assert a[..|a|] == a && b[..|b|] == b;
    assert Start(a, |a|) == Start(b, |b|);
  }

  lemma {:induction false} SameLengthsUpTo(a: seq<Token>, b: seq<Token>, j: nat)
    requires |a| == |b| && j <= |a| && forall j :: 0 <= j < |a| ==> a[j].Length() == b[j].Length()
    ensures Start(a, j) == Start(b, j)
  {
    if j > 0 {
      SameLengthsUpTo(a, b, j - 1);
      assert a[..j][..j - 1] == a[..j - 1] && b[..j][..j - 1] == b[..j - 1];
    }
  }

  /** A match at offset one carries a run of one byte on. */
  lemma {:induction false} CopyOfConstant(x: byte, n: nat, len: nat)
    requires n >= 1
    ensures CopyMatch(Repeat(x, n), 1, len) == Repeat(x, n + len)
    decreases len
  {
    if len > 0 {
      assert Repeat(x, n) + [Repeat(x, n)[n - 1]] == Repeat(x, n + 1);
      CopyOfConstant(x, n + 1, len - 1);
    }
  }

  // ----- the copy itself -----

  /** Every byte of the range repeats the one a distance before it, written by this
      very copy or not. */
  method CopyBytes(out: array<byte>, dst: nat, src: nat, len: nat)
    requires src < dst && dst + len <= out.Length
    modifies out
    ensures forall i :: dst <= i < dst + len ==> out[i] == out[i - (dst - src)]
    ensures forall i :: 0 <= i < out.Length && !(dst <= i < dst + len) ==> out[i] == old(out[i])
    ensures out[..dst + len] == CopyMatch(old(out[..dst]), dst - src, len)
  {
    for n := 0 to len
      invariant forall i :: dst <= i < dst + n ==> out[i] == out[i - (dst - src)]
      invariant forall i :: 0 <= i < out.Length && !(dst <= i < dst + n) ==> out[i] == old(out[i])
    {
      out[dst + n] := out[src + n];
    }
    CopyByEquation(out[..], dst, dst - src, len);
    assert out[..][..dst] == old(out[..dst]) && out[..][..dst + len] == out[..dst + len];
  }
}
