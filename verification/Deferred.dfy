/** Why copying late means the same as copying in order.

    A lane reserves output in one round and pays for it one round later, so at
    any moment up to 32 holes are open in the output. They are filled in the
    order they were opened: from the lane about to step, the lanes that owe a
    distance owe it for increasing positions. Every byte a copy reads therefore
    lies below every hole still open, or was written by that same copy. */
module Deferred {
  import opened Bits
  import opened Schedule
  import opened Lz77
  import opened PageSpec
  import opened Team

  /** How many steps until lane `i` steps, when lane `l` is next. */
  function Turn(l: nat, i: nat): nat
    requires l < NUM_STREAMS && i < NUM_STREAMS
  {
    if i >= l then i - l else i + NUM_STREAMS - l
  }

  ghost predicate InOrder(tokens: seq<Token>, pend: seq<Pending>, l: nat)
    requires |pend| == NUM_STREAMS && l < NUM_STREAMS
  {
    && (forall a, b :: 0 <= a < NUM_STREAMS && 0 <= b < NUM_STREAMS && pend[a].Owes? && pend[b].Owes? && Turn(l, a) < Turn(l, b) ==>
          pend[a].token < pend[b].token)
    && (forall j, k :: 0 <= j < k < |tokens| && tokens[j].Reserved? ==> !tokens[k].Match?)
  }

  /** The lane about to step owes for the earliest hole there is. */
  lemma OldestFirst(tokens: seq<Token>, pend: seq<Pending>, l: nat)
    requires Linked(tokens, pend) && l < NUM_STREAMS && InOrder(tokens, pend, l) && pend[l].Owes?
    ensures forall k :: 0 <= k < pend[l].token ==> !tokens[k].Reserved?
  {
    forall b | 0 <= b < NUM_STREAMS && pend[b].Owes? ensures pend[l].token <= pend[b].token {
      assert b == l || Turn(l, l) < Turn(l, b);
    }
  }

  lemma TurnPasses(l: nat, a: nat, b: nat)
    requires l < NUM_STREAMS && a < NUM_STREAMS && b < NUM_STREAMS && a != l
    ensures b != l ==> (Turn(NextLane(l), a) < Turn(NextLane(l), b) <==> Turn(l, a) < Turn(l, b))
    ensures b == l ==> Turn(NextLane(l), a) < Turn(NextLane(l), b)
  {
  }

  /** The lane whose turn it is retires the earliest reservation outstanding, and
      the rest stay in order. */
  lemma RetireInOrder(tokens: seq<Token>, pend: seq<Pending>, l: nat, dist: nat)
    requires Linked(tokens, pend) && l < NUM_STREAMS && InOrder(tokens, pend, l) && pend[l].Owes?
    ensures var j := pend[l].token;
            && tokens[j].Reserved? && (forall k :: 0 <= k < |tokens| && tokens[k].Reserved? ==> j <= k)
            && InOrder(tokens[j := Match(tokens[j].len, dist)], pend[l := Idle], NextLane(l))
  {
    OldestFirst(tokens, pend, l);
    forall a, b | 0 <= a < NUM_STREAMS && 0 <= b < NUM_STREAMS && a != l && b != l
      ensures Turn(NextLane(l), a) < Turn(NextLane(l), b) <==> Turn(l, a) < Turn(l, b)
    {
      TurnPasses(l, a, b);
    }
  }

  /** A lane that owes nothing may pass its turn. */
  lemma PassInOrder(tokens: seq<Token>, pend: seq<Pending>, l: nat)
    requires |pend| == NUM_STREAMS && l < NUM_STREAMS && InOrder(tokens, pend, l) && pend[l].Idle?
    ensures InOrder(tokens, pend, NextLane(l))
  {
    forall a, b | 0 <= a < NUM_STREAMS && 0 <= b < NUM_STREAMS && a != l && b != l
      ensures Turn(NextLane(l), a) < Turn(NextLane(l), b) <==> Turn(l, a) < Turn(l, b)
    {
      TurnPasses(l, a, b);
    }
  }

  lemma LiteralInOrder(tokens: seq<Token>, pend: seq<Pending>, l: nat, b: byte)
    requires |pend| == NUM_STREAMS && l < NUM_STREAMS && InOrder(tokens, pend, l) && pend[l].Idle?
    ensures InOrder(tokens + [Literal(b)], pend, NextLane(l))
  {
    PassInOrder(tokens, pend, l);
  }

  /** A new reservation is the youngest, and its lane steps last. */
  lemma ReserveInOrder(tokens: seq<Token>, pend: seq<Pending>, l: nat, len: nat)
    requires Linked(tokens, pend) && l < NUM_STREAMS && InOrder(tokens, pend, l) && pend[l].Idle?
    ensures InOrder(tokens + [Reserved(len, l)], pend[l := Owes(|tokens|)], NextLane(l))
  {
    var pend' := pend[l := Owes(|tokens|)];
    forall a, b | 0 <= a < NUM_STREAMS && 0 <= b < NUM_STREAMS && pend'[a].Owes? && pend'[b].Owes? &&
                  Turn(NextLane(l), a) < Turn(NextLane(l), b)
      ensures pend'[a].token < pend'[b].token
    {
      if a == l {
        if b != l { TurnPasses(l, b, l); }
      } else {
        TurnPasses(l, a, b);
      }
    }
  }

  // ----- the output while holes are open -----

  /** Each lane's outstanding copy is the hole its token left. */
  predicate CopiesMatch(copies: seq<DeferredCopy>, tokens: seq<Token>, pend: seq<Pending>)
    requires Linked(tokens, pend)
  {
    && |copies| == NUM_STREAMS
    && forall l :: 0 <= l < NUM_STREAMS ==>
         && (copies[l].pending <==> pend[l].Owes?)
         && (pend[l].Owes? ==> copies[l].outPos == Start(tokens, pend[l].token) && copies[l].length == tokens[pend[l].token].len)
  }

  ghost predicate Tracks(tokens: seq<Token>, pend: seq<Pending>, l: nat, copies: seq<DeferredCopy>, out: seq<byte>, cap: nat) {
    && l < NUM_STREAMS && Linked(tokens, pend) && InOrder(tokens, pend, l)
    && CopiesMatch(copies, tokens, pend)
    && OutLen(tokens) <= cap <= |out| && Agrees(out, tokens)
  }

  lemma TrackPass(tokens: seq<Token>, pend: seq<Pending>, l: nat, copies: seq<DeferredCopy>, out: seq<byte>, cap: nat)
    requires Tracks(tokens, pend, l, copies, out, cap) && pend[l].Idle?
    ensures Tracks(tokens, pend, NextLane(l), copies, out, cap)
  {
    PassInOrder(tokens, pend, l);
  }

  lemma TrackLiteral(tokens: seq<Token>, pend: seq<Pending>, l: nat, copies: seq<DeferredCopy>, out: seq<byte>, cap: nat, b: byte)
    requires Tracks(tokens, pend, l, copies, out, cap) && pend[l].Idle? && OutLen(tokens) < cap
    ensures Tracks(tokens + [Literal(b)], pend, NextLane(l), copies, out[OutLen(tokens) := b], cap)
  {
    var out' := out[OutLen(tokens) := b];
    LiteralInOrder(tokens, pend, l, b);
    LiteralKeeps(tokens, pend, b);
    AppendStarts(tokens, Literal(b));
    assert out'[..OutLen(tokens)] == out[..OutLen(tokens)];
    AppendAgrees(out, tokens, out', Literal(b));
  }

  lemma TrackReserve(tokens: seq<Token>, pend: seq<Pending>, l: nat, copies: seq<DeferredCopy>, out: seq<byte>, cap: nat, len: nat)
    requires Tracks(tokens, pend, l, copies, out, cap) && pend[l].Idle? && len <= cap - OutLen(tokens)
    ensures Tracks(tokens + [Reserved(len, l)], pend[l := Owes(|tokens|)], NextLane(l),
                   copies[l := DeferredCopy(OutLen(tokens), len, true)], out, cap)
  {
    ReserveInOrder(tokens, pend, l, len);
    ReserveKeeps(tokens, pend, l, len);
    AppendStarts(tokens, Reserved(len, l));
    assert (tokens + [Reserved(len, l)])[..|tokens|] == tokens;
    AppendAgrees(out, tokens, out, Reserved(len, l));
  }

  /** The hole of the lane about to step: everything it reads is final. */
  lemma TrackRetire(tokens: seq<Token>, pend: seq<Pending>, l: nat, copies: seq<DeferredCopy>, out: seq<byte>, cap: nat,
                    dist: nat, out': seq<byte>)
    requires Tracks(tokens, pend, l, copies, out, cap) && pend[l].Owes? && |out'| == |out|
    requires 1 <= dist <= copies[l].outPos
    requires copies[l].outPos + copies[l].length <= |out|
    requires forall i :: copies[l].outPos <= i < copies[l].outPos + copies[l].length ==> out'[i] == out'[i - dist]
    requires forall i :: 0 <= i < |out| && !(copies[l].outPos <= i < copies[l].outPos + copies[l].length) ==> out'[i] == out[i]
    ensures var j := pend[l].token;
            Tracks(tokens[j := Match(tokens[j].len, dist)], pend[l := Idle], NextLane(l),
                   copies[l := copies[l].(pending := false)], out', cap)
  {
    var j := pend[l].token;
    var tokens' := tokens[j := Match(tokens[j].len, dist)];
    RetireInOrder(tokens, pend, l, dist);
    SettleKeeps(tokens, pend, l, dist);
    SameLengths(tokens, tokens');
    FillAgrees(out, tokens, out', j, dist);
  }

  lemma HoleFits(tokens: seq<Token>, pend: seq<Pending>, l: nat, copies: seq<DeferredCopy>, out: seq<byte>, cap: nat)
    requires Tracks(tokens, pend, l, copies, out, cap) && pend[l].Owes?
    ensures |copies| == NUM_STREAMS && copies[l].pending && Linked(tokens, pend)
    ensures copies[l].outPos + copies[l].length <= OutLen(tokens) <= cap <= |out|
  {
    StartFits(tokens, pend[l].token);
  }

  lemma TrackFacts(tokens: seq<Token>, pend: seq<Pending>, l: nat, copies: seq<DeferredCopy>, out: seq<byte>, cap: nat)
    requires Tracks(tokens, pend, l, copies, out, cap)
    ensures |copies| == NUM_STREAMS && Linked(tokens, pend) && OutLen(tokens) <= cap <= |out|
    ensures copies[l].pending <==> pend[l].Owes?
  {
  }
}
