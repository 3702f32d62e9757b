/** Canonical Huffman codes, as section 3.2.2 of RFC 1951 assigns them, and
    the theory that makes a complete one uniquely decodable.

    A length vector is complete when its codewords claim exactly the whole
    codespace. Every codeword then owns an interval of the 2^m values an m-bit
    string can take, the intervals of consecutive codewords abut, and so every
    m-bit string begins with exactly one codeword. */
module CanonicalCode {
  import opened Bits

  // ----- the code -----

  /** How many symbols have codeword length `len`. */
  function Count(lens: seq<nat>, len: nat): (n: nat)
    ensures n <= |lens|
  {
    if lens == [] then 0
    else Count(lens[..|lens| - 1], len) + (if lens[|lens| - 1] == len then 1 else 0)
  }

  /** The smallest codeword of each length: step 2 of the RFC's assignment. */
  function NextCode(lens: seq<nat>, len: nat): nat
    requires len >= 1
  {
    if len == 1 then 0 else 2 * (NextCode(lens, len - 1) + Count(lens, len - 1))
  }

  /** How many symbols before `sym` share its length. */
  function Rank(lens: seq<nat>, sym: nat): nat
    requires sym < |lens|
  {
    Count(lens[..sym], lens[sym])
  }

  /** The codeword of `sym` as a number: step 3 of the RFC's assignment. */
  function Code(lens: seq<nat>, sym: nat): nat
    requires sym < |lens| && lens[sym] >= 1
  {
    NextCode(lens, lens[sym]) + Rank(lens, sym)
  }

  /** The codeword of `sym` in the order its bits arrive. */
  function Codeword(lens: seq<nat>, sym: nat): seq<bool>
    requires sym < |lens| && lens[sym] >= 1
  {
    MsbBits(Code(lens, sym), lens[sym])
  }

  /** `bits` begins with the codeword of `sym`. */
  predicate Matches(lens: seq<nat>, sym: nat, bits: seq<bool>) {
    sym < |lens| && lens[sym] >= 1 && Codeword(lens, sym) <= bits
  }

  // ----- completeness -----

  /** The codespace the lengths claim, out of 2^m. */
  function Kraft(lens: seq<nat>, m: nat): nat {
    if lens == [] then 0
    else Kraft(lens[..|lens| - 1], m) + Share(lens[|lens| - 1], m)
  }

  function Share(len: nat, m: nat): nat {
    if 0 < len <= m then Pow2(m - len) else 0
  }

  /** The part of it that codewords of length at most `len` claim. */
  function KraftUpTo(lens: seq<nat>, len: nat, m: nat): nat
    requires len <= m
  {
    if len == 0 then 0
    else KraftUpTo(lens, len - 1, m) + Count(lens, len) * Pow2(m - len)
  }

  predicate InRange(lens: seq<nat>, m: nat) {
    forall i :: 0 <= i < |lens| ==> lens[i] <= m
  }

  predicate Complete(lens: seq<nat>, m: nat) {
    InRange(lens, m) && Kraft(lens, m) == Pow2(m)
  }

  /** No symbol has a codeword. */
  predicate EmptyCode(lens: seq<nat>) {
    forall i :: 0 <= i < |lens| ==> lens[i] == 0
  }

  /** `sym` is the only symbol with a codeword, and that codeword is one bit. */
  predicate SingleCode(lens: seq<nat>, sym: nat) {
    sym < |lens| && lens[sym] == 1 && forall i :: 0 <= i < |lens| && i != sym ==> lens[i] == 0
  }

  // ----- counting -----

  lemma {:induction false} CountMono(lens: seq<nat>, i: nat, j: nat, len: nat)
    requires i <= j <= |lens|
    ensures Count(lens[..i], len) <= Count(lens[..j], len)
  {
    if i < j {
      CountMono(lens, i, j - 1, len);
      assert lens[..j][..j - 1] == lens[..j - 1];
    }
  }

  lemma CountStep(lens: seq<nat>, i: nat, len: nat)
    requires i < |lens|
    ensures Count(lens[..i + 1], len) == Count(lens[..i], len) + (if lens[i] == len then 1 else 0)
  {
    assert lens[..i + 1][..i] == lens[..i];
  }

  /** A rank is below the count, and symbols of one length have distinct ranks. */
  lemma RankBelow(lens: seq<nat>, sym: nat)
    requires sym < |lens|
    ensures Rank(lens, sym) < Count(lens, lens[sym])
  {
    CountStep(lens, sym, lens[sym]);
    CountMono(lens, sym + 1, |lens|, lens[sym]);
    assert lens[..|lens|] == lens;
  }

  lemma RankOrders(lens: seq<nat>, s: nat, t: nat)
    requires s < t < |lens| && lens[s] == lens[t]
    ensures Rank(lens, s) < Rank(lens, t)
  {
    CountStep(lens, s, lens[s]);
    CountMono(lens, s + 1, t, lens[s]);
  }

  /** Every rank below the count belongs to a symbol. */
  lemma {:induction false} RankedSymbol(lens: seq<nat>, len: nat, rank: nat) returns (sym: nat)
    requires rank < Count(lens, len)
    ensures sym < |lens| && lens[sym] == len && Rank(lens, sym) == rank
  {
    var n := |lens| - 1;
    if lens[n] == len && rank == Count(lens[..n], len) {
      sym := n;
    } else {
      sym := RankedSymbol(lens[..n], len, rank);
      assert lens[..n][..sym] == lens[..sym];
    }
  }

  lemma {:induction false} KraftMono(lens: seq<nat>, a: nat, b: nat, m: nat)
    requires a <= b <= m
    ensures KraftUpTo(lens, a, m) <= KraftUpTo(lens, b, m)
  {
    if a < b { KraftMono(lens, a, b - 1, m); }
  }

  lemma {:induction false} KraftAppendOne(lens: seq<nat>, x: nat, len: nat, m: nat)
    requires len <= m
    ensures KraftUpTo(lens + [x], len, m) == KraftUpTo(lens, len, m) + (if x <= len then Share(x, m) else 0)
  {
    if len > 0 {
      KraftAppendOne(lens, x, len - 1, m);
      assert (lens + [x])[..|lens|] == lens;
      var c, p := Count(lens, len), Pow2(m - len);
      assert (c + 1) * p == c * p + p;
    }
  }

  /** Summing the codespace by symbol and by length is the same sum. */
  lemma {:induction false} KraftByLength(lens: seq<nat>, m: nat)
    requires InRange(lens, m)
    ensures KraftUpTo(lens, m, m) == Kraft(lens, m)
  {
    if lens == [] {
      KraftOfNothing(m, m);
    } else {
      var n := |lens| - 1;
      KraftByLength(lens[..n], m);
      KraftAppendOne(lens[..n], lens[n], m, m);
      assert lens[..n] + [lens[n]] == lens;
    }
  }

  lemma {:induction false} KraftOfNothing(len: nat, m: nat)
    requires len <= m
    ensures KraftUpTo([], len, m) == 0
  {
    if len > 0 { KraftOfNothing(len - 1, m); }
  }

  /** The first codeword of a length starts where the shorter ones end. */
  lemma {:induction false} NextCodeStarts(lens: seq<nat>, len: nat, m: nat)
    requires 1 <= len <= m
    ensures NextCode(lens, len) * Pow2(m - len) == KraftUpTo(lens, len - 1, m)
    ensures (NextCode(lens, len) + Count(lens, len)) * Pow2(m - len) == KraftUpTo(lens, len, m)
  {
    var p := Pow2(m - len);
    if len > 1 {
      NextCodeStarts(lens, len - 1, m);
      MoveTwo(NextCode(lens, len - 1) + Count(lens, len - 1), p);
    }
    Distribute(NextCode(lens, len), Count(lens, len), p);
  }

  lemma LengthEnd(lens: seq<nat>, len: nat, m: nat) returns (x: nat)
    requires 1 <= len <= m
    ensures x == NextCode(lens, len) + Count(lens, len)
    ensures x * Pow2(m - len) == KraftUpTo(lens, len, m)
  {
    NextCodeStarts(lens, len, m);
    x := NextCode(lens, len) + Count(lens, len);
  }

  // ----- matching is an interval test -----

  /** The claim of the codespace fits, so every codeword fits its length. */
  predicate Fits(lens: seq<nat>, m: nat) {
    InRange(lens, m) && Kraft(lens, m) <= Pow2(m)
  }

  lemma CodesFit(lens: seq<nat>, len: nat, m: nat)
    requires Fits(lens, m) && 1 <= len <= m
    ensures NextCode(lens, len) + Count(lens, len) <= Pow2(len)
  {
    KraftByLength(lens, m);
    KraftMono(lens, len, m, m);
    var x := LengthEnd(lens, len, m);
    ScaledBelow(x, len, m);
  }

  lemma CodeFits(lens: seq<nat>, sym: nat, m: nat)
    requires Fits(lens, m) && sym < |lens| && lens[sym] >= 1
    ensures Code(lens, sym) < Pow2(lens[sym])
  {
    RankBelow(lens, sym);
    CodesFit(lens, lens[sym], m);
  }

  /** A codeword is a prefix exactly when it is the value of that many bits. */
  lemma MatchesByValue(lens: seq<nat>, sym: nat, bits: seq<bool>, m: nat)
    requires Fits(lens, m) && sym < |lens| && lens[sym] >= 1
    ensures Matches(lens, sym, bits) <==> lens[sym] <= |bits| && High(bits[..lens[sym]]) == Code(lens, sym)
  {
    var l := lens[sym];
    CodeFits(lens, sym, m);
    HighOfMsbBits(Code(lens, sym), l);
    if l <= |bits| {
      MsbBitsOfHigh(bits[..l]);
      if Codeword(lens, sym) <= bits {
        assert bits[..l] == Codeword(lens, sym);
      }
    }
  }

  /** Longer input never changes which codeword it begins with. */
  lemma MatchesLonger(lens: seq<nat>, sym: nat, bits: seq<bool>, more: seq<bool>)
    requires Matches(lens, sym, bits)
    ensures Matches(lens, sym, bits + more)
  {
  }

  /** Appending `k` bits scales the value of a prefix into an interval. */
  lemma PrefixInterval(bits: seq<bool>, len: nat, m: nat)
    requires len <= m <= |bits|
    ensures High(bits[..len]) * Pow2(m - len) <= High(bits[..m]) < (High(bits[..len]) + 1) * Pow2(m - len)
  {
    HighAppend(bits[..len], bits[len..m]);
    HighBelow(bits[len..m]);
    assert bits[..len] + bits[len..m] == bits[..m];
    Distribute(High(bits[..len]), 1, Pow2(m - len));
  }

  /** The value of m bits lies in the interval of the length that matches. */
  lemma MatchLocates(lens: seq<nat>, sym: nat, bits: seq<bool>, m: nat)
    requires Fits(lens, m) && m <= |bits| && Matches(lens, sym, bits)
    ensures KraftUpTo(lens, lens[sym] - 1, m) <= High(bits[..m]) < KraftUpTo(lens, lens[sym], m)
  {
    var l := lens[sym];
    MatchesByValue(lens, sym, bits, m);
    PrefixInterval(bits, l, m);
    NextCodeStarts(lens, l, m);
    RankBelow(lens, sym);
    var p := Pow2(m - l);
    MulMono(NextCode(lens, l), Code(lens, sym), p);
    MulMono(Code(lens, sym) + 1, NextCode(lens, l) + Count(lens, l), p);
  }

  /** No codeword is a prefix of another: at most one symbol matches. */
  lemma MatchUnique(lens: seq<nat>, s: nat, t: nat, bits: seq<bool>, m: nat)
    requires Fits(lens, m) && Matches(lens, s, bits) && Matches(lens, t, bits)
    ensures s == t
  {
    var long := bits + MsbBits(0, m);
    MatchesLonger(lens, s, bits, MsbBits(0, m));
    MatchesLonger(lens, t, bits, MsbBits(0, m));
    MatchLocates(lens, s, long, m);
    MatchLocates(lens, t, long, m);
    if lens[s] < lens[t] {
      KraftMono(lens, lens[s], lens[t] - 1, m);
    } else if lens[t] < lens[s] {
      KraftMono(lens, lens[t], lens[s] - 1, m);
    } else {
      MatchesByValue(lens, s, bits, m);
      MatchesByValue(lens, t, bits, m);
      if s < t { RankOrders(lens, s, t); } else if t < s { RankOrders(lens, t, s); }
    }
  }

  lemma {:induction false} IntervalLength(lens: seq<nat>, v: nat, len: nat, m: nat) returns (l: nat)
    requires len <= m && v < KraftUpTo(lens, len, m)
    ensures 1 <= l <= len && KraftUpTo(lens, l - 1, m) <= v < KraftUpTo(lens, l, m)
  {
    if v < KraftUpTo(lens, len - 1, m) {
      l := IntervalLength(lens, v, len - 1, m);
    } else {
      l := len;
    }
  }

  /** A code that is complete leaves no string without a codeword. */
  lemma MatchExists(lens: seq<nat>, bits: seq<bool>, m: nat) returns (sym: nat)
    requires Complete(lens, m) && m <= |bits|
    ensures Matches(lens, sym, bits)
  {
    var v := High(bits[..m]);
    HighBelow(bits[..m]);
    KraftByLength(lens, m);
    var l := IntervalLength(lens, v, m, m);
    PrefixInterval(bits, l, m);
    NextCodeStarts(lens, l, m);
    var h, f, c, p := High(bits[..l]), NextCode(lens, l), Count(lens, l), Pow2(m - l);
    assert f * p <= v < (h + 1) * p;
    assert h * p <= v < (f + c) * p;
    LessByScale(f, h + 1, p);
    LessByScale(h, f + c, p);
    sym := RankedSymbol(lens, l, h - f);
    MatchesByValue(lens, sym, bits, m);
  }

  /** The headline: a complete code over codewords of at most `m` bits cuts the
      m-bit strings into exactly one class per symbol. */
  lemma CompleteIsUniquelyDecodable(lens: seq<nat>, bits: seq<bool>, m: nat)
    requires Complete(lens, m) && m <= |bits|
    ensures exists sym :: Matches(lens, sym, bits) && forall t :: Matches(lens, t, bits) ==> t == sym
  {
    var sym := MatchExists(lens, bits, m);
    forall t | Matches(lens, t, bits) ensures t == sym {
      MatchUnique(lens, t, sym, bits, m);
    }
  }
}
