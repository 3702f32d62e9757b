/** The canonical decode table: counting sort, Kraft verdict, root accelerator
    and length-by-length walk (the first half of src/gdeflate_tables.h). */
module HuffTable {
  import opened Bits
  import opened CanonicalCode
  import opened Schedule

  const MAX_CODE_LEN: nat := 15
  const NO_SYMBOL: nat := 0xFFFF

  datatype Kind = CompleteTable | SingleTable | EmptyTable

  /** What the construction must answer for a length vector, in terms of the
      code alone: a full codespace, or one of the two named exceptions. */
  ghost function Verdict(lens: seq<nat>, cap: nat, m: nat): Result<Kind> {
    if |lens| > cap then Refused(TablePastCapacity)
    else if !InRange(lens, m) then Refused(TableLengthPastMax)
    else if Kraft(lens, m) > Pow2(m) then Refused(TableOverSubscribed)
    else if Complete(lens, m) then Ok(CompleteTable)
    else if EmptyCode(lens) then Ok(EmptyTable)
    else if exists s :: SingleCode(lens, s) then Ok(SingleTable)
    else Refused(TableIncomplete)
  }

  /** A value stored in sixteen, or kept in thirty-two, bits. */
  function U16(n: nat): nat { if n < 0x1_0000 then n else n % 0x1_0000 }
  function U32(n: nat): nat { if n < 0x1_0000_0000 then n else n % 0x1_0000_0000 }

  // ----- canonical order -----

  /** Where the symbols of each length start in canonical order. */
  function FirstIndex(lens: seq<nat>, len: nat): nat
    requires len >= 1
  {
    if len == 1 then 0 else FirstIndex(lens, len - 1) + Count(lens, len - 1)
  }

  /** The place of a used symbol in canonical order. */
  function Slot(lens: seq<nat>, sym: nat): nat
    requires sym < |lens| && lens[sym] >= 1
  {
    FirstIndex(lens, lens[sym]) + Rank(lens, sym)
  }

  lemma {:induction false} FirstIndexMono(lens: seq<nat>, a: nat, b: nat)
    requires 1 <= a <= b
    ensures FirstIndex(lens, a) <= FirstIndex(lens, b)
  {
    if a < b { FirstIndexMono(lens, a, b - 1); }
  }

  lemma {:induction false} FirstIndexAppend(lens: seq<nat>, x: nat, len: nat)
    requires len >= 1
    ensures FirstIndex(lens + [x], len) == FirstIndex(lens, len) + (if 1 <= x < len then 1 else 0)
  {
    if len > 1 {
      FirstIndexAppend(lens, x, len - 1);
      assert (lens + [x])[..|lens|] == lens;
    }
  }

  lemma {:induction false} FirstIndexFits(lens: seq<nat>, len: nat)
    requires len >= 1
    ensures FirstIndex(lens, len) <= |lens|
  {
    if lens == [] {
      if len > 1 { FirstIndexFits(lens, len - 1); }
    } else {
      var n := |lens| - 1;
      FirstIndexFits(lens[..n], len);
      FirstIndexAppend(lens[..n], lens[n], len);
      assert lens[..n] + [lens[n]] == lens;
    }
  }

  lemma SlotFits(lens: seq<nat>, sym: nat)
    requires sym < |lens| && lens[sym] >= 1
    ensures Slot(lens, sym) < FirstIndex(lens, lens[sym] + 1) <= |lens|
  {
    RankBelow(lens, sym);
    FirstIndexFits(lens, lens[sym] + 1);
  }

  /** Canonical order is by length, then by symbol. */
  lemma SlotOrders(lens: seq<nat>, s: nat, t: nat)
    requires s < |lens| && t < |lens| && lens[s] >= 1 && lens[t] >= 1
    requires lens[s] < lens[t] || (lens[s] == lens[t] && s < t)
    ensures Slot(lens, s) < Slot(lens, t)
  {
    if lens[s] == lens[t] {
      RankOrders(lens, s, t);
    } else {
      SlotFits(lens, s);
      FirstIndexMono(lens, lens[s] + 1, lens[t]);
    }
  }

  lemma SlotInjective(lens: seq<nat>, s: nat, t: nat)
    requires s < |lens| && t < |lens| && lens[s] >= 1 && lens[t] >= 1 && s != t
    ensures Slot(lens, s) != Slot(lens, t)
  {
    if lens[s] < lens[t] || (lens[s] == lens[t] && s < t) {
      SlotOrders(lens, s, t);
    } else {
      SlotOrders(lens, t, s);
    }
  }

  // ----- the codespace accumulator -----

  function Codespace(lens: seq<nat>, len: nat): nat {
    if len == 0 then 0 else 2 * Codespace(lens, len - 1) + Count(lens, len)
  }

  /** The accumulator runs one step ahead of the first codes. */
  lemma {:induction false} CodespaceIsNextCode(lens: seq<nat>, len: nat)
    requires len >= 1
    ensures Codespace(lens, len) == NextCode(lens, len) + Count(lens, len)
  {
    if len > 1 { CodespaceIsNextCode(lens, len - 1); }
  }

  lemma CodespaceIsKraft(lens: seq<nat>, m: nat)
    requires InRange(lens, m) && m >= 1
    ensures Codespace(lens, m) == Kraft(lens, m)
  {
    CodespaceIsNextCode(lens, m);
    var x := LengthEnd(lens, m, m);
    KraftByLength(lens, m);
  }

  lemma {:induction false} CodespaceFits(lens: seq<nat>, len: nat)
    requires len >= 1
    ensures Codespace(lens, len) <= FirstIndex(lens, len + 1) * Pow2(len - 1)
    ensures FirstIndex(lens, len + 1) * Pow2(len - 1) <= |lens| * Pow2(len - 1)
  {
    FirstIndexFits(lens, len + 1);
    MulMono(FirstIndex(lens, len + 1), |lens|, Pow2(len - 1));
    var c := Count(lens, len);
    if len > 1 {
      CodespaceFits(lens, len - 1);
      MoveTwo(FirstIndex(lens, len), Pow2(len - 2));
      MulMono(1, Pow2(len - 1), c);
      Distribute(FirstIndex(lens, len), c, Pow2(len - 1));
    }
  }

  /** A Kraft sum of zero is an empty code. */
  lemma {:induction false} KraftZero(lens: seq<nat>, m: nat)
    requires InRange(lens, m)
    ensures Kraft(lens, m) == 0 <==> EmptyCode(lens)
  {
    if lens != [] {
      var n := |lens| - 1;
      KraftZero(lens[..n], m);
      assert EmptyCode(lens) <==> EmptyCode(lens[..n]) && lens[n] == 0;
    }
  }

  lemma {:induction false} KraftAtLeast(lens: seq<nat>, i: nat, m: nat)
    requires i < |lens|
    ensures Kraft(lens, m) >= Share(lens[i], m)
    ensures forall j :: 0 <= j < |lens| && j != i ==> Kraft(lens, m) >= Share(lens[i], m) + Share(lens[j], m)
  {
    var n := |lens| - 1;
    if i < n {
      KraftAtLeast(lens[..n], i, m);
    } else {
      forall j | 0 <= j < n ensures Kraft(lens[..n], m) >= Share(lens[j], m) {
        KraftAtLeast(lens[..n], j, m);
      }
    }
  }

  /** Half the codespace taken by one symbol leaves nothing for another. */
  lemma HalfIsSingle(lens: seq<nat>, s: nat, m: nat)
    requires InRange(lens, m) && m >= 1 && s < |lens|
    requires Kraft(lens, m) == Pow2(m - 1) && lens[s] == 1
    ensures SingleCode(lens, s)
  {
    KraftAtLeast(lens, s, m);
    forall i | 0 <= i < |lens| && i != s ensures lens[i] == 0 {
      assert Kraft(lens, m) >= Share(lens[s], m) + Share(lens[i], m);
    }
  }

  lemma {:induction false} SingleKraft(lens: seq<nat>, s: nat, m: nat)
    requires SingleCode(lens, s) && m >= 1
    ensures Kraft(lens, m) == Pow2(m - 1) && Count(lens, 1) == 1
  {
    var n := |lens| - 1;
    if s < n {
      SingleKraft(lens[..n], s, m);
    } else {
      EmptyKraft(lens[..n], m);
    }
  }

  lemma {:induction false} EmptyKraft(lens: seq<nat>, m: nat)
    requires EmptyCode(lens)
    ensures Kraft(lens, m) == 0 && Count(lens, 1) == 0
  {
    if lens != [] { EmptyKraft(lens[..|lens| - 1], m); }
  }

  // ----- the root accelerator -----

  /** A root slot: zero when no codeword fits under the slot's bits, and
      otherwise the one that does, packed above its length. */
  ghost predicate RootSlot(lens: seq<nat>, rootBits: nat, i: nat, entry: nat) {
    if entry == 0 then forall s :: !Matches(lens, s, BitsOf(i, rootBits))
    else Matches(lens, entry / 16, BitsOf(i, rootBits)) && entry % 16 == lens[entry / 16]
  }

  lemma PushBit(n: nat, k: nat, bit: nat)
    requires n < Pow2(k) && bit <= 1
    ensures 2 * n + bit < Pow2(k + 1) && BitsOf(2 * n + bit, k + 1) == [bit == 1] + BitsOf(n, k)
  {
  }

  /** Reading a codeword backwards turns arrival order into buffer order. */
  method ReverseBits(code: nat, len: nat) returns (out: nat)
    ensures out < Pow2(len) && BitsOf(out, len) == MsbBits(code, len)
  {
    out := 0;
    for i := 0 to len
      invariant out < Pow2(i) && BitsOf(out, i) == MsbBits(code, len)[len - i..]
    {
      MsbBit(code, len, i);
      PushBit(out, i, Mask(Shr(code, i), 1));
      out := 2 * out + Mask(Shr(code, i), 1);
    }
    assert MsbBits(code, len)[0..] == MsbBits(code, len);
  }

  lemma {:induction false} MsbBit(code: nat, len: nat, i: nat)
    requires i < len
    ensures MsbBits(code, len)[len - 1 - i] == (Mask(Shr(code, i), 1) == 1)
    ensures Mask(Shr(code, i), 1) <= 1
  {
    if i > 0 { MsbBit(code / 2, len - 1, i - 1); }
  }

  // ----- the table -----

  predicate Counted(lens: seq<nat>, count: seq<nat>) {
    forall l :: 0 <= l < |count| ==> count[l] == Count(lens, l)
  }

  predicate Indexed(lens: seq<nat>, firstIndex: seq<nat>) {
    forall l :: 1 <= l < |firstIndex| ==> firstIndex[l] == FirstIndex(lens, l)
  }

  predicate Coded(lens: seq<nat>, firstCode: seq<nat>) {
    forall l :: 1 <= l < |firstCode| ==> firstCode[l] == NextCode(lens, l)
  }

  /** Every used symbol below `n` stands at its place in canonical order. */
  predicate Ordered(lens: seq<nat>, sorted: seq<nat>, n: nat)
    requires n <= |lens| <= |sorted|
  {
    forall s: nat {:trigger lens[s]} | s < n && lens[s] >= 1 ::
      SlotFits(lens, s);
      sorted[Slot(lens, s)] == s
  }

  ghost predicate Rooted(lens: seq<nat>, rootBits: nat, root: seq<nat>) {
    forall i :: 0 <= i < |root| ==> RootSlot(lens, rootBits, i, root[i])
  }

  /** What the accelerator holds while it is filled: the first `n` symbols of
      canonical order have their slots, and `sym`, the next one, has those
      below `upTo`. */
  ghost predicate Placed(lens: seq<nat>, s: nat, i: nat, n: nat, sym: nat, upTo: nat)
    requires s < |lens| && lens[s] >= 1
  {
    Slot(lens, s) < n || (s == sym && i < upTo)
  }

  ghost predicate EntryOk(lens: seq<nat>, rootBits: nat, i: nat, entry: nat, n: nat, sym: nat, upTo: nat) {
    entry == 0 ||
    (Matches(lens, entry / 16, BitsOf(i, rootBits)) && entry % 16 == lens[entry / 16] && Placed(lens, entry / 16, i, n, sym, upTo))
  }

  ghost predicate EntriesOk(lens: seq<nat>, rootBits: nat, root: seq<nat>, n: nat, sym: nat, upTo: nat) {
    forall i {:trigger root[i]} :: 0 <= i < |root| ==> EntryOk(lens, rootBits, i, root[i], n, sym, upTo)
  }

  ghost predicate PlacedStored(lens: seq<nat>, rootBits: nat, root: seq<nat>, n: nat, sym: nat, upTo: nat) {
    forall i: nat, s: nat :: i < |root| && Matches(lens, s, BitsOf(i, rootBits)) && Placed(lens, s, i, n, sym, upTo) ==>
      root[i] == 16 * s + lens[s]
  }

  ghost predicate RootSoFar(lens: seq<nat>, rootBits: nat, root: seq<nat>, n: nat, sym: nat, upTo: nat) {
    EntriesOk(lens, rootBits, root, n, sym, upTo) && PlacedStored(lens, rootBits, root, n, sym, upTo)
  }

  lemma RootIsDone(lens: seq<nat>, rootBits: nat, root: seq<nat>, sym: nat)
    requires RootSoFar(lens, rootBits, root, FirstIndex(lens, rootBits + 1), sym, 0)
    ensures Rooted(lens, rootBits, root)
  {
    forall i: nat, s: nat | i < |root| && Matches(lens, s, BitsOf(i, rootBits)) ensures root[i] != 0 {
      SlotFits(lens, s);
      FirstIndexMono(lens, lens[s] + 1, rootBits + 1);
    }
    forall i | 0 <= i < |root| ensures RootSlot(lens, rootBits, i, root[i]) {
      assert EntryOk(lens, rootBits, i, root[i], FirstIndex(lens, rootBits + 1), sym, 0);
    }
  }

  /** Moving on to the next symbol forgets nothing. */
  lemma RootNextSymbol(lens: seq<nat>, rootBits: nat, root: seq<nat>, n: nat, sym: nat, upTo: nat, next: nat)
    requires sym < |lens| && lens[sym] >= 1 && Slot(lens, sym) == n && upTo >= |root|
    requires RootSoFar(lens, rootBits, root, n, sym, upTo)
    ensures RootSoFar(lens, rootBits, root, n + 1, next, 0)
  {
    forall s: nat, i: nat | s < |lens| && lens[s] >= 1 && i < |root|
      ensures Placed(lens, s, i, n + 1, next, 0) <==> Placed(lens, s, i, n, sym, upTo)
    {
      if s != sym { SlotInjective(lens, s, sym); }
    }
    forall i | 0 <= i < |root| ensures EntryOk(lens, rootBits, i, root[i], n + 1, next, 0) {
      assert EntryOk(lens, rootBits, i, root[i], n, sym, upTo);
    }
  }

  /** A slot belongs to a codeword exactly when its low bits are that codeword
      read backwards. */
  lemma MatchesByMask(lens: seq<nat>, sym: nat, i: nat, rootBits: nat, rev: nat)
    requires sym < |lens| && 1 <= lens[sym] <= rootBits && rev < Pow2(lens[sym])
    requires BitsOf(rev, lens[sym]) == Codeword(lens, sym)
    ensures Matches(lens, sym, BitsOf(i, rootBits)) <==> Mask(i, lens[sym]) == rev
  {
    var l := lens[sym];
    BitsTake(i, l, rootBits);
    MaskBelow(i, l);
    if BitsOf(Mask(i, l), l) == BitsOf(rev, l) {
      BitsInjective(Mask(i, l), rev, l);
    }
  }

  /** No other codeword owns a slot this one owns, and no slot of this one lies
      between two that are a stride apart. */
  lemma StrideOwns(lens: seq<nat>, rootBits: nat, m: nat, sym: nat, i: nat, rev: nat)
    requires Fits(lens, m) && sym < |lens| && 1 <= lens[sym] <= rootBits
    requires rev < Pow2(lens[sym]) && BitsOf(rev, lens[sym]) == Codeword(lens, sym)
    requires Mask(i, lens[sym]) == rev
    ensures Matches(lens, sym, BitsOf(i, rootBits))
    ensures forall s: nat :: Matches(lens, s, BitsOf(i, rootBits)) ==> s == sym
    ensures forall j: nat :: i < j < i + Pow2(lens[sym]) ==> !Matches(lens, sym, BitsOf(j, rootBits))
  {
    var l := lens[sym];
    MatchesByMask(lens, sym, i, rootBits, rev);
    forall s: nat | Matches(lens, s, BitsOf(i, rootBits)) ensures s == sym {
      MatchUnique(lens, s, sym, BitsOf(i, rootBits), m);
    }
    forall j: nat | i < j < i + Pow2(l) ensures !Matches(lens, sym, BitsOf(j, rootBits)) {
      MaskStride(i, j, l);
      MatchesByMask(lens, sym, j, rootBits, rev);
    }
  }

  lemma Packed(sym: nat, len: nat, entry: nat)
    requires len < 16 && entry == 16 * sym + len
    ensures entry / 16 == sym && entry % 16 == len
  {
  }

  lemma EntriesGrow(lens: seq<nat>, rootBits: nat, root: seq<nat>, n: nat, sym: nat, i: nat, upTo: nat)
    requires EntriesOk(lens, rootBits, root, n, sym, i) && i <= upTo
    ensures EntriesOk(lens, rootBits, root, n, sym, upTo)
  {
    forall j | 0 <= j < |root| ensures EntryOk(lens, rootBits, j, root[j], n, sym, upTo) {
      assert EntryOk(lens, rootBits, j, root[j], n, sym, i);
    }
  }

  lemma StoredGrow(lens: seq<nat>, rootBits: nat, root: seq<nat>, n: nat, sym: nat, i: nat, upTo: nat)
    requires PlacedStored(lens, rootBits, root, n, sym, i)
    requires forall j: nat :: i <= j < upTo && j < |root| ==> !Matches(lens, sym, BitsOf(j, rootBits))
    ensures PlacedStored(lens, rootBits, root, n, sym, upTo)
  {
    forall j: nat, s: nat | j < |root| && Matches(lens, s, BitsOf(j, rootBits)) && Placed(lens, s, j, n, sym, upTo)
      ensures root[j] == 16 * s + lens[s]
    {
      assert Placed(lens, s, j, n, sym, i);
    }
  }

  lemma WriteEntries(lens: seq<nat>, rootBits: nat, root: seq<nat>, n: nat, sym: nat, i: nat, entry: nat)
    requires i < |root| && EntriesOk(lens, rootBits, root, n, sym, i)
    requires EntryOk(lens, rootBits, i, entry, n, sym, i + 1)
    ensures EntriesOk(lens, rootBits, root[i := entry], n, sym, i + 1)
  {
    EntriesGrow(lens, rootBits, root, n, sym, i, i + 1);
  }

  lemma WriteStored(lens: seq<nat>, rootBits: nat, root: seq<nat>, n: nat, sym: nat, i: nat, entry: nat)
    requires sym < |lens| && i < |root| && entry == 16 * sym + lens[sym]
    requires PlacedStored(lens, rootBits, root, n, sym, i)
    requires forall s: nat :: Matches(lens, s, BitsOf(i, rootBits)) ==> s == sym
    ensures PlacedStored(lens, rootBits, root[i := entry], n, sym, i + 1)
  {
    forall j: nat, s: nat | j < |root| && Matches(lens, s, BitsOf(j, rootBits)) && Placed(lens, s, j, n, sym, i + 1)
      ensures root[i := entry][j] == 16 * s + lens[s]
    {
      if j != i {
        assert Placed(lens, s, j, n, sym, i);
      }
    }
  }

  /** Each root slot is written once, and by the codeword it begins with. */
  lemma RootWrite(lens: seq<nat>, rootBits: nat, root: seq<nat>, n: nat, sym: nat, i: nat, entry: nat)
    requires sym < |lens| && 1 <= lens[sym] < 16 && Slot(lens, sym) == n && i < |root| && entry == 16 * sym + lens[sym]
    requires RootSoFar(lens, rootBits, root, n, sym, i)
    requires Matches(lens, sym, BitsOf(i, rootBits))
    requires forall s: nat :: Matches(lens, s, BitsOf(i, rootBits)) ==> s == sym
    ensures root[i] == 0
    ensures RootSoFar(lens, rootBits, root[i := entry], n, sym, i + 1)
  {
    assert EntryOk(lens, rootBits, i, root[i], n, sym, i);
    Packed(sym, lens[sym], entry);
    assert EntryOk(lens, rootBits, i, entry, n, sym, i + 1);
    WriteEntries(lens, rootBits, root, n, sym, i, entry);
    WriteStored(lens, rootBits, root, n, sym, i, entry);
  }

  lemma RootStride(lens: seq<nat>, rootBits: nat, m: nat, root: seq<nat>, n: nat, sym: nat, i: nat, rev: nat, entry: nat, next: nat)
    requires Fits(lens, m) && sym < |lens| && 1 <= lens[sym] <= rootBits && Slot(lens, sym) == n && lens[sym] < 16
    requires rev < Pow2(lens[sym]) && BitsOf(rev, lens[sym]) == Codeword(lens, sym)
    requires i < |root| && Mask(i, lens[sym]) == rev && entry == 16 * sym + lens[sym] && next == i + Pow2(lens[sym])
    requires RootSoFar(lens, rootBits, root, n, sym, i)
    ensures root[i] == 0
    ensures RootSoFar(lens, rootBits, root[i := entry], n, sym, next) && Mask(next, lens[sym]) == rev
  {
    MaskStride(i, i, lens[sym]);
    StrideOwns(lens, rootBits, m, sym, i, rev);
    RootWrite(lens, rootBits, root, n, sym, i, entry);
    EntriesGrow(lens, rootBits, root[i := entry], n, sym, i + 1, next);
    StoredGrow(lens, rootBits, root[i := entry], n, sym, i + 1, next);
  }

  lemma RootFirstStride(lens: seq<nat>, rootBits: nat, root: seq<nat>, n: nat, sym: nat, rev: nat)
    requires sym < |lens| && 1 <= lens[sym] <= rootBits
    requires rev < Pow2(lens[sym]) && BitsOf(rev, lens[sym]) == Codeword(lens, sym)
    requires RootSoFar(lens, rootBits, root, n, sym, 0)
    ensures RootSoFar(lens, rootBits, root, n, sym, rev)
    ensures Mask(rev, lens[sym]) == rev
  {
    MaskSmall(rev, lens[sym]);
    forall j: nat | j < rev ensures !Matches(lens, sym, BitsOf(j, rootBits)) {
      MaskSmall(j, lens[sym]);
      MatchesByMask(lens, sym, j, rootBits, rev);
    }
    EntriesGrow(lens, rootBits, root, n, sym, 0, rev);
    StoredGrow(lens, rootBits, root, n, sym, 0, rev);
  }

  class GDeflateHuffTable {
    const cap: nat
    const rootBits: nat
    const maxLen: nat
    const sorted: array<nat>
    const count: array<nat>
    const firstCode: array<nat>
    const firstIndex: array<nat>
    const root: array<nat>
    var kind: Kind

    ghost function Repr(): set<object> { {this, sorted, count, firstCode, firstIndex, root} }

    /** The capacities the header fixes at compile time, and no array shared. */
    ghost predicate Shaped() {
      && 1 <= rootBits <= maxLen <= MAX_CODE_LEN
      && cap <= 0x1000 && cap * Pow2(maxLen - 1) <= 0xFFFF_FFFF
      && sorted.Length == cap && root.Length == Pow2(rootBits)
      && count.Length == firstCode.Length == firstIndex.Length == maxLen + 1
      && sorted != count && sorted != firstCode && sorted != firstIndex && sorted != root
      && count != firstCode && count != firstIndex && count != root
      && firstCode != firstIndex && firstCode != root && firstIndex != root
    }

    /** The table is the one `lens` describes. */
    ghost predicate Built(lens: seq<nat>)
      reads this, sorted, count, firstCode, firstIndex, root
    {
      && Shaped()
      && Verdict(lens, cap, maxLen) == Ok(kind)
      && Counted(lens, count[..]) && Indexed(lens, firstIndex[..]) && Ordered(lens, sorted[..], |lens|)
      && (kind.CompleteTable? ==> Coded(lens, firstCode[..]) && Rooted(lens, rootBits, root[..]))
    }

    constructor (cap: nat, rootBits: nat, maxLen: nat)
      requires 1 <= rootBits <= maxLen <= MAX_CODE_LEN && cap <= 0x1000 && cap * Pow2(maxLen - 1) <= 0xFFFF_FFFF
      ensures Shaped() && fresh(Repr())
      ensures this.cap == cap && this.rootBits == rootBits && this.maxLen == maxLen
    {
      this.cap, this.rootBits, this.maxLen := cap, rootBits, maxLen;
      sorted := new nat[cap];
      count := new nat[maxLen + 1];
      firstCode := new nat[maxLen + 1];
      firstIndex := new nat[maxLen + 1];
      root := new nat[Pow2(rootBits)];
      kind := EmptyTable;
    }

    method CountLengths(lens: seq<nat>) returns (ok: bool)
      requires Shaped() && |lens| <= cap
      modifies count, firstCode, firstIndex
      ensures ok <==> InRange(lens, maxLen)
      ensures ok ==> Counted(lens, count[..])
    {
      for len := 0 to maxLen + 1
        invariant forall l :: 0 <= l < len ==> count[l] == 0
      {
        count[len] := 0;
        firstCode[len] := 0;
        firstIndex[len] := 0;
      }
      for sym := 0 to |lens|
        invariant InRange(lens[..sym], maxLen)
        invariant Counted(lens[..sym], count[..])
      {
        var len := lens[sym];
        if len > maxLen {
          return false;
        }
        assert lens[..sym + 1][..sym] == lens[..sym];
        count[len] := U16(count[len] + 1);
      }
      assert lens[..|lens|] == lens;
      return true;
    }

    method SumCodespace(ghost lens: seq<nat>) returns (codespace: nat)
      requires Shaped() && |lens| <= cap && InRange(lens, maxLen) && Counted(lens, count[..])
      ensures codespace == Kraft(lens, maxLen)
    {
      codespace := 0;
      for len := 1 to maxLen + 1
        invariant codespace == Codespace(lens, len - 1)
      {
        AccumulatorFits(lens, len, cap, maxLen);
        assert count[..][len] == Count(lens, len);
        codespace := U32(2 * codespace + count[len]);
      }
      CodespaceIsKraft(lens, maxLen);
    }

    method IndexLengths(ghost lens: seq<nat>)
      requires Shaped() && |lens| <= cap && Counted(lens, count[..])
      modifies firstIndex
      ensures Indexed(lens, firstIndex[..])
    {
      var next := 0;
      for len := 1 to maxLen + 1
        invariant next == FirstIndex(lens, len)
        invariant forall l :: 1 <= l < len ==> firstIndex[l] == FirstIndex(lens, l)
      {
        FirstIndexFits(lens, len);
        assert count[..][len] == Count(lens, len);
        assert FirstIndex(lens, len + 1) == next + count[len];
        firstIndex[len] := U16(next);
        next := next + count[len];
      }
    }

    /** The counting sort: `firstIndex` doubles as the fill cursor. */
    method PlaceSymbols(lens: seq<nat>)
      requires Shaped() && |lens| <= cap && InRange(lens, maxLen) && Indexed(lens, firstIndex[..])
      modifies sorted, firstIndex
      ensures forall l :: 1 <= l <= maxLen ==> firstIndex[l] == FirstIndex(lens, l) + Count(lens, l)
      ensures Ordered(lens, sorted[..], |lens|)
    {
      hide Ordered, Slot, FirstIndex, Count;
      assert forall l :: 1 <= l <= maxLen ==> firstIndex[..][l] == FirstIndex(lens, l);
      NonePlaced(lens, sorted[..]);
      for sym := 0 to |lens|
        invariant forall l :: 1 <= l <= maxLen ==> firstIndex[l] == FirstIndex(lens, l) + Count(lens[..sym], l)
        invariant Ordered(lens, sorted[..], sym)
      {
        var len := lens[sym];
        CountSteps(lens, sym);
        if len != 0 {
          ghost var was := sorted[..];
          PlaceSymbol(lens, was, sym);
          var slot := firstIndex[len];
          sorted[slot] := U16(sym);
          assert sorted[..] == was[slot := sym];
          firstIndex[len] := U16(slot + 1);
        } else {
          SkipSymbol(lens, sorted[..], sym);
        }
      }
      assert lens[..|lens|] == lens;
    }

    method WindBack(ghost first: seq<nat>)
      requires Shaped() && |first| == maxLen + 1
      requires forall l :: 1 <= l <= maxLen ==> firstIndex[l] == first[l] + count[l]
      requires forall l :: 1 <= l <= maxLen ==> first[l] < 0x1_0000
      modifies firstIndex
      ensures forall l :: 1 <= l <= maxLen ==> firstIndex[l] == first[l]
    {
      for len := 1 to maxLen + 1
        invariant forall l :: 1 <= l < len ==> firstIndex[l] == first[l]
        invariant forall l :: len <= l <= maxLen ==> firstIndex[l] == first[l] + count[l]
      {
        firstIndex[len] := U16(firstIndex[len] - count[len]);
      }
    }

    method ClearRoot(ghost lens: seq<nat>)
      requires Shaped()
      modifies root
      ensures RootSoFar(lens, rootBits, root[..], 0, 0, 0)
    {
      for i := 0 to root.Length
        invariant forall j :: 0 <= j < i ==> root[j] == 0
      {
        root[i] := 0;
      }
    }

    method FirstCodes(ghost lens: seq<nat>)
      requires Shaped() && Fits(lens, maxLen) && Counted(lens, count[..])
      modifies firstCode
      ensures Coded(lens, firstCode[..])
    {
      var code := 0;
      for len := 1 to maxLen + 1
        invariant code == NextCode(lens, len)
        invariant forall l :: 1 <= l < len ==> firstCode[l] == NextCode(lens, l)
      {
        FirstCodeFits(lens, len, maxLen);
        assert count[..][len] == Count(lens, len);
        firstCode[len] := U16(code);
        code := 2 * (code + count[len]);
      }
    }

    /** One codeword: every slot whose low bits are the codeword backwards. */
    method FillCodeword(lens: seq<nat>, sym: nat, len: nat, code: nat)
      requires Shaped() && Fits(lens, maxLen) && sym < |lens| <= cap && lens[sym] == len && 1 <= len <= rootBits
      requires code == Code(lens, sym)
      requires RootSoFar(lens, rootBits, root[..], Slot(lens, sym), sym, 0)
      modifies root
      ensures RootSoFar(lens, rootBits, root[..], Slot(lens, sym) + 1, 0, 0)
    {
      ghost var n := Slot(lens, sym);
      CodeFits(lens, sym, maxLen);
      var rev := ReverseBits(code, len);
      var entry := U16(16 * sym + len);
      RootFirstStride(lens, rootBits, root[..], n, sym, rev);
      FillStrides(lens, sym, len, rev, n, entry);
    }

    lemma RootIsShort()
      requires Shaped()
      ensures rootBits < 16
    {
    }

    method FillStrides(ghost lens: seq<nat>, ghost sym: nat, len: nat, rev: nat, ghost n: nat, entry: nat)
      requires Shaped() && Fits(lens, maxLen) && sym < |lens| && lens[sym] == len && 1 <= len <= rootBits
      requires n == Slot(lens, sym) && entry == 16 * sym + len
      requires rev < Pow2(len) && BitsOf(rev, len) == Codeword(lens, sym) && Mask(rev, len) == rev
      requires RootSoFar(lens, rootBits, root[..], n, sym, rev)
      modifies root
      ensures RootSoFar(lens, rootBits, root[..], n + 1, 0, 0)
    {
      hide *;
      RootIsShort();
      var i, stride := rev, Pow2(len);
      ghost var slots := root[..];
      while i < root.Length
        invariant Mask(i, len) == rev && root[..] == slots
        invariant RootSoFar(lens, rootBits, slots, n, sym, i)
        decreases root.Length - i
      {
        RootStride(lens, rootBits, maxLen, slots, n, sym, i, rev, entry, i + stride);
        root[i] := entry;
        slots := slots[i := entry];
        i := i + stride;
      }
      RootNextSymbol(lens, rootBits, slots, n, sym, i, 0);
    }

    method FillLength(lens: seq<nat>, len: nat)
      requires Shaped() && Fits(lens, maxLen) && |lens| <= cap && 1 <= len <= rootBits
      requires count[len] == Count(lens, len) && firstIndex[len] == FirstIndex(lens, len) && firstCode[len] == NextCode(lens, len)
      requires Ordered(lens, sorted[..], |lens|)
      requires RootSoFar(lens, rootBits, root[..], FirstIndex(lens, len), 0, 0)
      modifies root
      ensures RootSoFar(lens, rootBits, root[..], FirstIndex(lens, len + 1), 0, 0)
    {
      for n := 0 to count[len]
        invariant RootSoFar(lens, rootBits, root[..], firstIndex[len] + n, 0, 0)
      {
        ghost var s := RankedSymbol(lens, len, n);
        SlotFits(lens, s);
        assert sorted[..][Slot(lens, s)] == s;
        var sym := sorted[firstIndex[len] + n];
        RootOther(lens, rootBits, root[..], firstIndex[len] + n, 0, sym);
        FillCodeword(lens, sym, len, firstCode[len] + n);
      }
    }

    method FillRoot(lens: seq<nat>)
      requires Shaped() && Fits(lens, maxLen) && |lens| <= cap
      requires Counted(lens, count[..]) && Indexed(lens, firstIndex[..]) && Coded(lens, firstCode[..])
      requires Ordered(lens, sorted[..], |lens|)
      requires RootSoFar(lens, rootBits, root[..], 0, 0, 0)
      modifies root
      ensures Rooted(lens, rootBits, root[..])
    {
      for len := 1 to rootBits + 1
        invariant RootSoFar(lens, rootBits, root[..], FirstIndex(lens, len), 0, 0)
      {
        assert count[..][len] == Count(lens, len) && firstIndex[..][len] == FirstIndex(lens, len);
        assert firstCode[..][len] == NextCode(lens, len);
        hide *;
        FillLength(lens, len);
      }
      RootIsDone(lens, rootBits, root[..], 0);
    }

    /** Build the table, refusing exactly the vectors that are not a code. */
    method BuildTable(lens: seq<nat>) returns (ok: bool, why: Reject)
      requires Shaped()
      modifies this, sorted, count, firstCode, firstIndex, root
      ensures match Verdict(lens, cap, maxLen)
              case Ok(k) => ok && why == NoReject && kind == k && Built(lens)
              case Refused(r) => !ok && why == r
    {
      hide Ordered, Rooted, RootSoFar, Coded, Slot, FirstIndex, NextCode, Kraft, Count, InRange, SingleCode, Pow2;
      if |lens| > cap {
        return false, TablePastCapacity;
      }
      kind := CompleteTable;
      var counted := CountLengths(lens);
      if !counted {
        return false, TableLengthPastMax;
      }
      var codespace := SumCodespace(lens);
      var full := Pow2(maxLen);
      if codespace > full {
        return false, TableOverSubscribed;
      }
      IndexLengths(lens);
      PlaceSymbols(lens);
      ghost var first := seq(maxLen + 1, l requires 0 <= l => if l == 0 then 0 else FirstIndex(lens, l));
      FirstIndicesFit(lens, first);
      assert forall l :: 1 <= l <= maxLen ==> count[..][l] == Count(lens, l);
      WindBack(first);
      assert Indexed(lens, firstIndex[..]);
      ClearRoot(lens);
      if codespace < full {
        KraftZero(lens, maxLen);
        if codespace == 0 {
          kind := EmptyTable;
          return true, NoReject;
        }
        assert count[..][1] == Count(lens, 1);
        SingleByCount(lens, maxLen);
        if codespace != full / 2 || count[1] != 1 {
          return false, TableIncomplete;
        }
        kind := SingleTable;
        return true, NoReject;
      }
      FirstCodes(lens);
      FillRoot(lens);
      return true, NoReject;
    }

    /** The length-by-length walk, from the bits the read has reached. */
    method Walk(ghost lens: seq<nat>, bitbuf: nat, bitsleft: nat, r: LaneRead) returns (sym: nat, r': LaneRead)
      requires Built(lens) && kind.CompleteTable? && r.why == NoReject
      requires bitbuf < Pow2(bitsleft) && r.consumed <= bitsleft <= MAX_LANE_BITS
      ensures r.consumed <= r'.consumed <= bitsleft
      ensures Resolved(lens, maxLen, kind, BitsOf(bitbuf, bitsleft)[r.consumed..], sym, r'.consumed - r.consumed, r'.why)
      ensures r'.why != RemovePastLane
    {
      hide Matches, Resolved, Code, Codeword, NextCode, Count, FirstIndex, Slot, Kraft, High, Low, BitsOf, Pow2, Ordered, Rooted, Verdict, Fits, Complete;
      VerdictOk(lens, cap, maxLen);
      ghost var lane := BitsOf(bitbuf, bitsleft);
      ghost var bits := lane[r.consumed..];
      NothingRead(bits);
      assert forall l :: 1 <= l <= maxLen ==>
          count[..][l] == Count(lens, l) && firstCode[..][l] == NextCode(lens, l) && firstIndex[..][l] == FirstIndex(lens, l);
      var code := 0;
      r' := r;
      for len := 1 to maxLen + 1
        invariant r'.why == NoReject && r'.consumed == r.consumed + (len - 1) <= bitsleft
        invariant code == High(bits[..len - 1])
        invariant forall s: nat :: s < |lens| && 1 <= lens[s] < len ==> !Matches(lens, s, bits)
      {
        var bit;
        bit, r' := ReadAhead(bitbuf, bitsleft, r', 1);
        if r'.why != NoReject {
          ShortWalk(lens, maxLen, bits, len);
          return NO_SYMBOL, r';
        }
        OneMoreBit(lane, r.consumed, len - 1);
        code := 2 * code + bit;
        assert count[..][len] == count[len] && firstCode[..][len] == firstCode[len] && firstIndex[..][len] == firstIndex[len];
        if count[len] != 0 && code >= firstCode[len] && code - firstCode[len] < count[len] {
          ghost var s := WalkFinds(lens, maxLen, bits, len, code, sorted[..]);
          return sorted[firstIndex[len] + (code - firstCode[len])], r';
        }
        NoneOfLength(lens, maxLen, bits, len, code);
      }
      WalkEnds(lens, maxLen, bits);
      assert false;
      r' := r'.(why := CodewordNotInCode);
      sym := NO_SYMBOL;
    }

    /** Resolve one symbol without consuming it: the root lookup, then the walk. */
    method ResolveSymbol(ghost lens: seq<nat>, bitbuf: nat, bitsleft: nat, r: LaneRead) returns (sym: nat, r': LaneRead)
      requires Built(lens)
      requires bitbuf < Pow2(bitsleft) && r.consumed <= bitsleft <= MAX_LANE_BITS
      ensures r.consumed <= r'.consumed <= bitsleft
      ensures r.why != NoReject ==> sym == NO_SYMBOL && r' == r
      ensures r.why == NoReject ==>
                Resolved(lens, maxLen, kind, BitsOf(bitbuf, bitsleft)[r.consumed..], sym, r'.consumed - r.consumed, r'.why)
    {
      hide Matches, Resolved, Verdict, Ordered, BitsOf, Pow2, Mask, Shr;
      if r.why != NoReject {
        return NO_SYMBOL, r;
      }
      ghost var bits := BitsOf(bitbuf, bitsleft)[r.consumed..];
      VerdictOk(lens, cap, maxLen);
      if kind == EmptyTable {
        EmptyResolves(lens, maxLen, bits);
        return NO_SYMBOL, r.(why := EmptyTableUsed);
      }
      if kind == SingleTable {
        SingleResolves(lens, cap, maxLen, sorted[..], bits);
        if 1 > bitsleft - r.consumed {
          return NO_SYMBOL, r.(why := RemovePastLane);
        }
        return sorted[0], r.(consumed := r.consumed + 1);
      }
      var probe := Mask(Shr(bitbuf, r.consumed), rootBits);
      MaskBelow(Shr(bitbuf, r.consumed), rootBits);
      var entry := root[probe];
      assert RootSlot(lens, rootBits, probe, root[..][probe]);
      var hitLen := entry % 16;
      if hitLen != 0 {
        RootResolves(lens, maxLen, bitbuf, bitsleft, r.consumed, rootBits, entry);
        if hitLen > bitsleft - r.consumed {
          return NO_SYMBOL, r.(why := RemovePastLane);
        }
        return entry / 16, r.(consumed := r.consumed + hitLen);
      }
      sym, r' := Walk(lens, bitbuf, bitsleft, r);
    }
  }

  /** What resolving `bits` against a table must answer. A complete table names
      the symbol whose codeword the bits begin with, and refuses only when the
      lane is too short to hold one. */
  ghost predicate Resolved(lens: seq<nat>, m: nat, kind: Kind, bits: seq<bool>, sym: nat, width: nat, why: Reject) {
    && (why != NoReject ==> sym == NO_SYMBOL)
    && match kind
       case EmptyTable => why == EmptyTableUsed
       case SingleTable =>
         if bits == [] then why == RemovePastLane
         else why == NoReject && SingleCode(lens, sym) && width == 1
       case CompleteTable =>
         if why == NoReject then Matches(lens, sym, bits) && width == lens[sym]
         else (why == RemovePastLane || why == PopPastLane) && |bits| < m && forall s :: !Matches(lens, s, bits)
  }

  /** That answer is unique: lookup-then-walk and the walk alone agree. */
  lemma ResolvedUnique(lens: seq<nat>, m: nat, kind: Kind, bits: seq<bool>, s: nat, w: nat, why: Reject, s': nat, w': nat, why': Reject)
    requires Fits(lens, m)
    requires Resolved(lens, m, kind, bits, s, w, why) && Resolved(lens, m, kind, bits, s', w', why')
    ensures s == s' && (why == NoReject <==> why' == NoReject) && (why == NoReject ==> w == w')
  {
    if kind.CompleteTable? && why == NoReject && why' == NoReject {
      MatchUnique(lens, s, s', bits, m);
    }
  }

  /** A lane that holds the longest codeword never runs short. */
  lemma ResolvedWhenLong(lens: seq<nat>, m: nat, kind: Kind, bits: seq<bool>, s: nat, w: nat, why: Reject)
    requires |bits| >= m >= 1 && Resolved(lens, m, kind, bits, s, w, why)
    ensures why == if kind.EmptyTable? then EmptyTableUsed else NoReject
  {
  }

  lemma ShortWalk(lens: seq<nat>, m: nat, bits: seq<bool>, len: nat)
    requires |bits| < len <= m
    requires forall s: nat :: s < |lens| && 1 <= lens[s] < len ==> !Matches(lens, s, bits)
    ensures forall width :: Resolved(lens, m, CompleteTable, bits, NO_SYMBOL, width, PopPastLane)
  {
  }

  lemma WalkFinds(lens: seq<nat>, m: nat, bits: seq<bool>, len: nat, code: nat, sorted: seq<nat>) returns (s: nat)
    requires Fits(lens, m) && 1 <= len <= m && len <= |bits| && code == High(bits[..len])
    requires NextCode(lens, len) <= code < NextCode(lens, len) + Count(lens, len)
    requires |lens| <= |sorted| && Ordered(lens, sorted, |lens|)
    ensures FirstIndex(lens, len) + (code - NextCode(lens, len)) < |sorted|
    ensures s == sorted[FirstIndex(lens, len) + (code - NextCode(lens, len))]
    ensures Resolved(lens, m, CompleteTable, bits, s, len, NoReject)
  {
    s := SymbolAt(lens, m, bits, len, code);
    SlotFits(lens, s);
  }

  /** On a complete code the walk never falls off the end. */
  lemma WalkEnds(lens: seq<nat>, m: nat, bits: seq<bool>)
    requires Complete(lens, m) && m <= |bits|
    ensures exists s: nat :: s < |lens| && 1 <= lens[s] <= m && Matches(lens, s, bits)
  {
    var s := MatchExists(lens, bits, m);
  }

  lemma NothingRead(bits: seq<bool>)
    ensures High(bits[..0]) == 0
  {
  }

  lemma OneMoreBit(lane: seq<bool>, at: nat, n: nat)
    requires at + n < |lane|
    ensures lane[at + n..at + n + 1] == [lane[at + n]]
    ensures Low(lane[at + n..at + n + 1]) == if lane[at + n] then 1 else 0
    ensures High(lane[at..][..n + 1]) == 2 * High(lane[at..][..n]) + Low(lane[at + n..at + n + 1])
  {
    var b := lane[at..][..n + 1];
    assert b[..n] == lane[at..][..n];
    assert lane[at + n..at + n + 1] == [lane[at + n]];
    assert Low([lane[at + n]]) == (if lane[at + n] then 1 else 0) + 2 * Low([]);
  }

  /** The walk's test at a length names the symbol there, or rules the length out. */
  lemma SymbolAt(lens: seq<nat>, m: nat, bits: seq<bool>, len: nat, code: nat) returns (s: nat)
    requires Fits(lens, m) && 1 <= len <= m && len <= |bits| && code == High(bits[..len])
    requires NextCode(lens, len) <= code < NextCode(lens, len) + Count(lens, len)
    ensures Matches(lens, s, bits) && lens[s] == len && Slot(lens, s) == FirstIndex(lens, len) + (code - NextCode(lens, len))
  {
    s := RankedSymbol(lens, len, code - NextCode(lens, len));
    MatchesByValue(lens, s, bits, m);
  }

  lemma NoneOfLength(lens: seq<nat>, m: nat, bits: seq<bool>, len: nat, code: nat)
    requires Fits(lens, m) && 1 <= len <= m && len <= |bits| && code == High(bits[..len])
    requires !(NextCode(lens, len) <= code < NextCode(lens, len) + Count(lens, len))
    ensures forall s: nat :: s < |lens| && lens[s] == len ==> !Matches(lens, s, bits)
  {
    forall s: nat | s < |lens| && lens[s] == len ensures !Matches(lens, s, bits) {
      MatchesByValue(lens, s, bits, m);
      RankBelow(lens, s);
    }
  }

  lemma SingleIsFirst(lens: seq<nat>, sorted: seq<nat>)
    requires |lens| <= |sorted| && Ordered(lens, sorted, |lens|) && exists s :: SingleCode(lens, s)
    ensures |sorted| > 0 && SingleCode(lens, sorted[0])
  {
    var s :| SingleCode(lens, s);
    SlotFits(lens, s);
    NothingBefore(lens, s);
  }

  lemma NothingBefore(lens: seq<nat>, s: nat)
    requires SingleCode(lens, s)
    ensures Slot(lens, s) == 0
  {
    EmptyKraft(lens[..s], 1);
  }

  /** A probe hit is a codeword the lane begins with, when the lane holds it;
      when it does not, the lane begins with no codeword at all. */
  lemma RootHit(lens: seq<nat>, m: nat, window: nat, held: nat, rootBits: nat, sym: nat)
    requires Fits(lens, m) && Matches(lens, sym, BitsOf(Mask(window, rootBits), rootBits)) && rootBits <= m
    ensures lens[sym] <= held ==> Matches(lens, sym, BitsOf(window, held))
    ensures lens[sym] > held ==> held < m && forall s :: !Matches(lens, s, BitsOf(window, held))
  {
    MaskBelow(window, rootBits);
    var l := lens[sym];
    BitsTake(window, l, rootBits);
    assert Codeword(lens, sym) == BitsOf(window, rootBits)[..l];
    if l <= held {
      BitsTake(window, l, held);
    } else {
      BitsTake(window, held, rootBits);
      forall s | Matches(lens, s, BitsOf(window, held)) ensures s == sym {
        MatchesLonger(lens, s, BitsOf(window, held), BitsOf(window, rootBits)[held..]);
        assert BitsOf(window, held) + BitsOf(window, rootBits)[held..] == BitsOf(window, rootBits);
        MatchUnique(lens, s, sym, BitsOf(window, rootBits), m);
      }
    }
  }

  lemma VerdictOk(lens: seq<nat>, cap: nat, m: nat)
    requires Verdict(lens, cap, m).Ok?
    ensures |lens| <= cap && InRange(lens, m)
    ensures Verdict(lens, cap, m) == Ok(CompleteTable) ==> Fits(lens, m) && Complete(lens, m)
  {
  }

  lemma EmptyResolves(lens: seq<nat>, m: nat, bits: seq<bool>)
    ensures Resolved(lens, m, EmptyTable, bits, NO_SYMBOL, 0, EmptyTableUsed)
  {
  }

  lemma SingleResolves(lens: seq<nat>, cap: nat, m: nat, sorted: seq<nat>, bits: seq<bool>)
    requires Verdict(lens, cap, m) == Ok(SingleTable) && |lens| <= |sorted| && Ordered(lens, sorted, |lens|)
    ensures |sorted| > 0
    ensures bits == [] ==> Resolved(lens, m, SingleTable, bits, NO_SYMBOL, 0, RemovePastLane)
    ensures bits != [] ==> Resolved(lens, m, SingleTable, bits, sorted[0], 1, NoReject)
  {
    SingleIsFirst(lens, sorted);
  }

  /** A hit in the root is the answer, unless the lane is short of its width. */
  lemma RootResolves(lens: seq<nat>, m: nat, bitbuf: nat, bitsleft: nat, at: nat, rootBits: nat, entry: nat)
    requires Fits(lens, m) && rootBits <= m && at <= bitsleft && bitbuf < Pow2(bitsleft)
    requires RootSlot(lens, rootBits, Mask(Shr(bitbuf, at), rootBits), entry) && entry % 16 != 0
    ensures var bits := BitsOf(bitbuf, bitsleft)[at..];
            if entry % 16 <= bitsleft - at
            then Resolved(lens, m, CompleteTable, bits, entry / 16, entry % 16, NoReject)
            else Resolved(lens, m, CompleteTable, bits, NO_SYMBOL, 0, RemovePastLane)
  {
    hide Matches, BitsOf, Mask, Shr, Pow2;
    BitsDrop(bitbuf, at, bitsleft);
    RootHit(lens, m, Shr(bitbuf, at), bitsleft - at, rootBits, entry / 16);
  }

  lemma FirstIndicesFit(lens: seq<nat>, first: seq<nat>)
    requires forall l :: 1 <= l < |first| ==> first[l] == FirstIndex(lens, l)
    ensures forall l :: 1 <= l < |first| ==> first[l] <= |lens|
  {
    forall l | 1 <= l < |first| ensures first[l] <= |lens| {
      FirstIndexFits(lens, l);
    }
  }

  lemma FirstCodeFits(lens: seq<nat>, len: nat, m: nat)
    requires Fits(lens, m) && 1 <= len <= m <= MAX_CODE_LEN
    ensures NextCode(lens, len) < 0x1_0000
  {
    CodesFit(lens, len, m);
    Pow2Mono(len, 15);
    assert Pow2(15) == 0x8000;
  }

  /** The degenerate test the code makes on the counts is the single code. */
  lemma SingleByCount(lens: seq<nat>, m: nat)
    requires InRange(lens, m) && m >= 1 && 0 < Kraft(lens, m) < Pow2(m)
    ensures Kraft(lens, m) == Pow2(m) / 2 && Count(lens, 1) == 1 <==> exists s :: SingleCode(lens, s)
  {
    if Kraft(lens, m) == Pow2(m) / 2 && Count(lens, 1) == 1 {
      var s := RankedSymbol(lens, 1, 0);
      HalfIsSingle(lens, s, m);
    }
    if s :| SingleCode(lens, s) {
      SingleKraft(lens, s, m);
    }
  }

  /** Between symbols it does not matter which one is named as next. */
  lemma RootOther(lens: seq<nat>, rootBits: nat, root: seq<nat>, n: nat, sym: nat, next: nat)
    requires RootSoFar(lens, rootBits, root, n, sym, 0)
    ensures RootSoFar(lens, rootBits, root, n, next, 0)
  {
    forall i | 0 <= i < |root| ensures EntryOk(lens, rootBits, i, root[i], n, next, 0) {
      assert EntryOk(lens, rootBits, i, root[i], n, sym, 0);
    }
    forall i: nat, s: nat | i < |root| && Matches(lens, s, BitsOf(i, rootBits)) && Placed(lens, s, i, n, next, 0)
      ensures root[i] == 16 * s + lens[s]
    {
      assert Placed(lens, s, i, n, sym, 0);
    }
  }

  lemma AccumulatorFits(lens: seq<nat>, len: nat, cap: nat, m: nat)
    requires 1 <= len <= m && |lens| <= cap && cap * Pow2(m - 1) <= 0xFFFF_FFFF
    ensures Codespace(lens, len) <= 0xFFFF_FFFF
  {
    CodespaceFits(lens, len);
    ProductMono(|lens|, cap, len - 1, m - 1);
  }

  lemma ProductMono(a: nat, b: nat, i: nat, j: nat)
    requires a <= b && i <= j
    ensures a * Pow2(i) <= b * Pow2(j)
  {
    Pow2Mono(i, j);
    MulMono(Pow2(i), Pow2(j), a);
    MulMono(a, b, Pow2(j));
  }

  lemma CountSteps(lens: seq<nat>, sym: nat)
    requires sym < |lens|
    ensures forall l :: Count(lens[..sym + 1], l) == Count(lens[..sym], l) + (if l == lens[sym] then 1 else 0)
  {
    forall l ensures Count(lens[..sym + 1], l) == Count(lens[..sym], l) + (if l == lens[sym] then 1 else 0) {
      CountStep(lens, sym, l);
    }
  }

  lemma NonePlaced(lens: seq<nat>, sorted: seq<nat>)
    requires |lens| <= |sorted|
    ensures Ordered(lens, sorted, 0) && forall l :: Count(lens[..0], l) == 0
  {
  }

  lemma PlaceSymbol(lens: seq<nat>, sorted: seq<nat>, sym: nat)
    requires sym < |lens| <= |sorted| && Ordered(lens, sorted, sym) && lens[sym] >= 1
    ensures Slot(lens, sym) == FirstIndex(lens, lens[sym]) + Count(lens[..sym], lens[sym]) < |lens|
    ensures Ordered(lens, sorted[Slot(lens, sym) := sym], sym + 1)
  {
    SlotFits(lens, sym);
    forall s: nat | s < sym + 1 && lens[s] >= 1
      ensures Slot(lens, s) < |lens| && sorted[Slot(lens, sym) := sym][Slot(lens, s)] == s
    {
      SlotFits(lens, s);
      if s != sym { SlotInjective(lens, s, sym); }
    }
  }

  lemma SkipSymbol(lens: seq<nat>, sorted: seq<nat>, sym: nat)
    requires sym < |lens| <= |sorted| && Ordered(lens, sorted, sym) && lens[sym] == 0
    ensures Ordered(lens, sorted, sym + 1)
  {
  }
}
