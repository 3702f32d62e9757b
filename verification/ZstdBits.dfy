/** The backward bit reader is arithmetic on one integer.

    Take the stream as one little-endian number. The start marker is its top set
    bit, and reading is taking bit fields of it from the marker down. */
module ZstdBits {
  import opened Bits
  import opened Cudec

  const BITS_PER_BYTE := 8
  const BIT_READ_MAX := 57
  datatype BitReject = NoReject | EmptyStream | NoStartMarker | NotStarted | ReadTooWide | PastStart | AlreadyOverrun

  // ----- the stream as a number -----

  /** Bit `k` of a number. */
  function Bit(n: nat, k: nat): (b: nat)
    ensures b <= 1
  {
    Shr(n, k) % 2
  }

  /** The `count` bits of `n` just below bit `top`, as a number. */
  function Extract(n: nat, top: nat, count: nat): nat
    requires count <= top
  {
    Mask(Shr(n, top - count), count)
  }

  lemma {:induction false} ShrAgain(n: nat, a: nat, b: nat)
    ensures Shr(n, a + b) == Shr(Shr(n, a), b)
  {
    if a > 0 { ShrAgain(n / 2, a - 1, b); }
  }

  lemma {:induction false} ShrPastByte(b: nat, m: nat, k: nat)
    requires b < Pow2(k)
    ensures Shr(b + Shl(m, k), k) == m
    ensures forall r: nat :: r < k ==> Bit(b + Shl(m, k), r) == Bit(b, r)
  {
    if k > 0 {
      AboveHalves(b, Shl(m, k - 1));
      ShrPastByte(b / 2, m, k - 1);
      forall r: nat | r < k ensures Bit(b + Shl(m, k), r) == Bit(b, r) {
        if r > 0 {
          assert Bit(b / 2 + Shl(m, k - 1), r - 1) == Bit(b / 2, r - 1);
        }
      }
    }
  }

  /** Bit 8q + r of the number is bit r of byte q. */
  lemma {:induction false} BitOfByte(src: seq<byte>, q: nat, r: nat)
    requires q < |src| && r < 8
    ensures Bit(Number(src), 8 * q + r) == Bit(src[q], r)
  {
    var k := BITS_PER_BYTE;
    var rest := Number(src[1..]);
    ByteShifts(rest);
    assert Number(src) == src[0] + Shl(rest, k);
    ShrPastByte(src[0], rest, k);
    if q > 0 {
      BitOfByte(src[1..], q - 1, r);
      ShrAgain(Number(src), k, 8 * (q - 1) + r);
    }
  }

  /** A field of `a + b` bits is a field of `a` bits followed by one of `b`. */
  lemma {:induction false} ExtractSplit(n: nat, top: nat, a: nat, b: nat)
    requires a + b <= top
    ensures Extract(n, top, a + b) == Shl(Extract(n, top, a), b) + Extract(n, top - a, b)
  {
    if b > 0 {
      var low := top - a - b;
      ExtractSplit(n, top, a, b - 1);
      ShrAgain(n, low, 1);
      assert Shr(n, low) / 2 == Shr(n, low + 1);
      assert Extract(n, top, a + b) == Shr(n, low) % 2 + 2 * Mask(Shr(n, low) / 2, a + b - 1);
    }
  }

  lemma ExtractOneMore(n: nat, top: nat, i: nat)
    requires i < top
    ensures Extract(n, top, i + 1) == 2 * Extract(n, top, i) + Bit(n, top - 1 - i)
  {
    ExtractSplit(n, top, i, 1);
    assert Mask(Shr(n, top - i - 1), 1) == Bit(n, top - 1 - i) + 2 * Mask(Shr(n, top - i - 1) / 2, 0);
  }

  lemma OrBit(acc: nat, b: nat)
    requires b <= 1
    ensures BitOr(Shl(acc, 1), b) == 2 * acc + b
  {
    OrWithZero(acc);
    OrStep(2 * acc, b);
    OrCommutes(acc, 0);
    assert Shl(acc, 1) == 2 * Shl(acc, 0);
  }

  lemma {:induction false} OrCommutes(a: nat, b: nat)
    ensures BitOr(a, b) == BitOr(b, a)
    decreases a + b
  {
    if a > 0 || b > 0 { OrCommutes(a / 2, b / 2); }
  }

  // ----- whole runs of reads -----

  function Sum(widths: seq<nat>): nat {
    if widths == [] then 0 else widths[0] + Sum(widths[1..])
  }

  /** What reads of these widths return, one after another. */
  function Reads(n: nat, top: nat, widths: seq<nat>): (values: seq<nat>)
    requires Sum(widths) <= top
    ensures |values| == |widths|
    decreases |widths|
  {
    if widths == [] then [] else [Extract(n, top, widths[0])] + Reads(n, top - widths[0], widths[1..])
  }

  /** Fields put back together, the first one highest. */
  function Assemble(values: seq<nat>, widths: seq<nat>): nat
    requires |values| == |widths|
    decreases |widths|
  {
    if widths == [] then 0 else Shl(values[0], Sum(widths[1..])) + Assemble(values[1..], widths[1..])
  }

  /** However the reads are cut, together they return one field. */
  lemma {:induction false} ReadsAssemble(n: nat, top: nat, widths: seq<nat>)
    requires Sum(widths) <= top
    ensures Assemble(Reads(n, top, widths), widths) == Extract(n, top, Sum(widths))
    decreases |widths|
  {
    if widths != [] {
      var v := Reads(n, top, widths);
      assert v[1..] == Reads(n, top - widths[0], widths[1..]);
      ReadsAssemble(n, top - widths[0], widths[1..]);
      ExtractSplit(n, top, widths[0], Sum(widths[1..]));
    }
  }

  lemma {:induction false} MaskOfTop(n: nat, k: nat)
    requires Pow2(k) <= n < Pow2(k + 1)
    ensures Mask(n, k) == n - Pow2(k)
  {
    if k > 0 { MaskOfTop(n / 2, k - 1); }
  }

  /** Reading a stream to its end, in any cut, returns every bit below the marker
      once: the whole number less its top bit. */
  lemma ExactConsumption(n: nat, top: nat, widths: seq<nat>)
    requires Sum(widths) == top && Pow2(top) <= n < Pow2(top + 1)
    ensures Assemble(Reads(n, top, widths), widths) == n - Pow2(top)
  {
    ReadsAssemble(n, top, widths);
    MaskOfTop(n, top);
  }

  // ----- the reader -----

  /** A number's highest set bit places it between two powers of two. */
  lemma {:induction false} TopBit(b: nat, h: nat, k: nat)
    requires h < k && b < Pow2(k) && Bit(b, h) == 1 && forall i: nat :: h < i < k ==> Bit(b, i) == 0
    ensures Pow2(h) <= b < Pow2(h + 1)
    decreases k
  {
    if h > 0 {
      forall i: nat | h - 1 < i < k - 1 ensures Bit(b / 2, i) == 0 {
        assert Bit(b, i + 1) == 0;
      }
      TopBit(b / 2, h - 1, k - 1);
    } else {
      HalfIsZero(b, k);
    }
  }

  lemma {:induction false} HalfIsZero(b: nat, k: nat)
    requires k >= 1 && b < Pow2(k) && forall i: nat :: 0 < i < k ==> Bit(b, i) == 0
    ensures b <= 1
    decreases k
  {
    if k > 1 {
      assert Bit(b, 1) == 0 && Bit(b / 2, 0) == 0;
      forall i: nat | 0 < i < k - 1 ensures Bit(b / 2, i) == 0 {
        assert Bit(b, i + 1) == 0;
      }
      HalfIsZero(b / 2, k - 1);
    }
  }

  method ZstdHighestSetBit(b: byte) returns (highest: nat)
    requires b != 0
    ensures highest < 8 && Pow2(highest) <= b < Pow2(highest + 1)
  {
    highest := 0;
    ghost var found := false;
    for bit := 0 to BITS_PER_BYTE
      invariant highest < 8 && (found ==> highest < bit && Bit(b, highest) == 1)
      invariant forall i: nat :: (if found then highest + 1 else 0) <= i < bit ==> Bit(b, i) == 0
    {
      if Shr(b, bit) % 2 == 1 {
        highest := bit;
        found := true;
      }
    }
    ByteShifts(0);
    if !found {
      AllZero(b, 8);
      assert false;
    }
    TopBit(b, highest, 8);
  }

  lemma {:induction false} AllZero(b: nat, k: nat)
    requires b < Pow2(k) && forall i: nat :: i < k ==> Bit(b, i) == 0
    ensures b == 0
    decreases k
  {
    if k > 0 {
      assert Bit(b, 0) == 0;
      forall i: nat | i < k - 1 ensures Bit(b / 2, i) == 0 {
        assert Bit(b, i + 1) == 0;
      }
      AllZero(b / 2, k - 1);
    }
  }

  /** Below the last byte's marker lie all the bits of the bytes before it. */
  lemma {:induction false} MarkerIsTop(src: seq<byte>, h: nat)
    requires src != [] && Pow2(h) <= src[|src| - 1] < Pow2(h + 1)
    ensures Pow2(8 * (|src| - 1) + h) <= Number(src) < Pow2(8 * (|src| - 1) + h + 1)
  {
    ByteShifts(0);
    if |src| == 1 {
      assert Number(src[1..]) == 0;
    } else {
      MarkerIsTop(src[1..], h);
      var k := 8 * (|src| - 2) + h;
      Pow2Add(8, k);
      Pow2Add(8, k + 1);
      assert Pow2(8 * (|src| - 1) + h) == 256 * Pow2(k);
    }
  }

  class ZstdBitReader {
    const src: seq<byte>
    var bitsTotal: nat
    var bitsRead: nat
    var markerBits: nat
    var started: bool
    var overrun: bool
    var reject: BitReject

    constructor (src: seq<byte>)
      requires 8 * |src| <= UINT64_MAX
      ensures this.src == src && Valid() && !started && !overrun && reject == NoReject
    {
      this.src := src;
      bitsTotal, bitsRead, markerBits := 0, 0, 0;
      started, overrun, reject := false, false, NoReject;
    }

    ghost predicate Valid()
      reads this
    {
      && 8 * |src| <= UINT64_MAX
      && (overrun ==> started)
      && (started ==>
            && src != [] && markerBits < 8 && bitsTotal == (|src| - 1) * BITS_PER_BYTE + markerBits
            && bitsRead <= bitsTotal
            && Pow2(bitsTotal) <= Number(src) < Pow2(bitsTotal + 1))
    }

    /** Find the start marker: the top set bit of the number. Only an empty stream
        or a zero last byte has none. */
    method Start() returns (status: Status)
      requires Valid()
      modifies this
      ensures Valid() && overrun == old(overrun)
      ensures status == Okay <==> old(started) || (src != [] && src[|src| - 1] != 0)
      ensures old(started) ==> status == Okay && bitsRead == old(bitsRead) && bitsTotal == old(bitsTotal) && started
      ensures !old(started) && status == Okay ==>
                started && bitsRead == 0 && Pow2(bitsTotal) <= Number(src) < Pow2(bitsTotal + 1)
      ensures status != Okay ==> status == CorruptInput && !started && reject == if src == [] then EmptyStream else NoStartMarker
    {
      if started {
        return Okay;
      }
      if |src| == 0 {
        reject := EmptyStream;
        return CorruptInput;
      }
      var last := src[|src| - 1];
      if last == 0 {
        reject := NoStartMarker;
        return CorruptInput;
      }
      markerBits := ZstdHighestSetBit(last);
      ByteShifts(0);
      Pow2Order(8, markerBits, last);
      MarkerIsTop(src, markerBits);
      bitsTotal := (|src| - 1) * BITS_PER_BYTE + markerBits;
      bitsRead := 0;
      started := true;
      status := Okay;
    }

    /** The closed form agrees with the number: bit `index` of the live bits, in
        consumption order, is bit `bitsTotal - 1 - index` of it. */
    method BitAt(index: nat) returns (b: nat)
      requires Valid() && started && index < bitsTotal
      ensures b == Bit(Number(src), bitsTotal - 1 - index)
    {
      if index < markerBits {
        var shift := markerBits - 1 - index;
        BitOfByte(src, |src| - 1, shift);
        return Shr(src[|src| - 1], shift) % 2;
      }
      var below := index - markerBits;
      ByteAndShift(below, |src|);
      var at := |src| - 2 - below / BITS_PER_BYTE;
      var shift := BITS_PER_BYTE - 1 - below % BITS_PER_BYTE;
      BitOfByte(src, at, shift);
      return Shr(src[at], shift) % 2;
    }

    /** Read a field: the next `count` bits of the number, or a refusal that
        moves nothing. The first read past the end refuses every later one. */
    method ReadBits(count: nat) returns (status: Status, value: nat)
      requires Valid()
      modifies this`bitsRead, this`overrun, this`reject
      ensures Valid()
      ensures status == Okay <==> !old(overrun) && started && count <= BIT_READ_MAX && count <= bitsTotal - old(bitsRead)
      ensures status == Okay ==>
                && bitsRead == old(bitsRead) + count && overrun == old(overrun)
                && value == Extract(Number(src), bitsTotal - old(bitsRead), count) < Pow2(count)
      ensures status != Okay ==> status == CorruptInput && value == 0 && bitsRead == old(bitsRead)
      ensures overrun <==> old(overrun) || (started && count <= BIT_READ_MAX && count > bitsTotal - old(bitsRead))
      ensures status != Okay ==>
                reject == if old(overrun) then AlreadyOverrun else if !started then NotStarted
                          else if count > BIT_READ_MAX then ReadTooWide else PastStart
    {
      value := 0;
      if overrun {
        reject := AlreadyOverrun;
        return CorruptInput, 0;
      }
      if !started {
        reject := NotStarted;
        return CorruptInput, 0;
      }
      if count > BIT_READ_MAX {
        reject := ReadTooWide;
        return CorruptInput, 0;
      }
      ghost var n, top := Number(src), bitsTotal - bitsRead;
      if count == 0 {
        return Okay, 0;
      }
      if count > bitsTotal - bitsRead {
        overrun := true;
        reject := PastStart;
        return CorruptInput, 0;
      }
      var accumulated := 0;
      for i := 0 to count
        invariant bitsRead == old(bitsRead) && !overrun && accumulated == Extract(n, top, i)
      {
        var b := BitAt(bitsRead + i);
        ExtractOneMore(n, top, i);
        OrBit(accumulated, b);
        accumulated := BitOr(Shl(accumulated, 1), b);
      }
      MaskBelow(Shr(n, top - count), count);
      bitsRead := bitsRead + count;
      return Okay, accumulated;
    }
  }

  /** Field after field from one reader, until one is refused. It gets them all
      exactly when each is narrow enough and together they are there to be read;
      then they are the fields of the number, one below another. */
  method ReadFields(r: ZstdBitReader, widths: seq<nat>) returns (ok: bool, values: seq<nat>)
    requires r.Valid()
    modifies r`bitsRead, r`overrun, r`reject
    ensures r.Valid() && |values| <= |widths|
    ensures ok <==> widths == [] || (!old(r.overrun) && r.started && Narrow(widths) && Sum(widths) <= r.bitsTotal - old(r.bitsRead))
    ensures ok && widths != [] ==>
              && r.bitsRead == old(r.bitsRead) + Sum(widths)
              && values == Reads(Number(r.src), r.bitsTotal - old(r.bitsRead), widths)
  {
    ok, values := true, [];
    if widths == [] {
      return;
    }
    hide Number, Extract, Pow2, Sum, Reads, Narrow;
    ghost var n, top := Number(r.src), if r.started then r.bitsTotal - r.bitsRead else 0;
    NoFields(n, top, widths);
    for i := 0 to |widths|
      invariant r.Valid() && |values| == i
      invariant i > 0 ==> !r.overrun && !old(r.overrun) && r.started
      invariant r.overrun == old(r.overrun)
      invariant Narrow(widths[..i]) && r.bitsRead == old(r.bitsRead) + Sum(widths[..i])
      invariant Sum(widths[..i]) <= top && values == Reads(n, top, widths[..i])
    {
      SumSplits(widths, i);
      NarrowOneMore(widths, i);
      var status, value := r.ReadBits(widths[i]);
      if status != Okay {
        ok := false;
        return;
      }
      ReadsOneMore(n, top, widths[..i], widths[i]);
      values := values + [value];
    }
    assert widths[..|widths|] == widths;
  }

  /** No field is wider than one read admits. */
  predicate Narrow(widths: seq<nat>) {
    forall i :: 0 <= i < |widths| ==> widths[i] <= BIT_READ_MAX
  }

  lemma NoFields(n: nat, top: nat, widths: seq<nat>)
    ensures Narrow(widths[..0]) && Sum(widths[..0]) == 0 && Reads(n, top, widths[..0]) == []
  {
  }

  lemma NarrowOneMore(widths: seq<nat>, i: nat)
    requires i < |widths| && Narrow(widths[..i])
    ensures widths[..i + 1] == widths[..i] + [widths[i]]
    ensures Narrow(widths[..i + 1]) <==> widths[i] <= BIT_READ_MAX
    ensures Narrow(widths) ==> widths[i] <= BIT_READ_MAX
  {
    assert widths[..i + 1][i] == widths[i];
  }

  lemma {:induction false} SumOneMore(widths: seq<nat>, w: nat)
    ensures Sum(widths + [w]) == Sum(widths) + w
  {
    if widths == [] {
      assert [] + [w] == [w] && [w][1..] == [];
    } else {
      assert (widths + [w])[1..] == widths[1..] + [w];
      SumOneMore(widths[1..], w);
    }
  }

  lemma {:induction false} SumSplits(widths: seq<nat>, i: nat)
    requires i < |widths|
    ensures Sum(widths[..i]) + widths[i] <= Sum(widths)
  {
    if i == 0 {
      assert widths[..0] == [];
    } else {
      SumSplits(widths[1..], i - 1);
      assert widths[..i][1..] == widths[1..][..i - 1] && widths[1..][i - 1] == widths[i];
    }
  }

  lemma {:induction false} ReadsOneMore(n: nat, top: nat, widths: seq<nat>, w: nat)
    requires Sum(widths) + w <= top
    ensures Sum(widths + [w]) == Sum(widths) + w
    ensures Reads(n, top, widths + [w]) == Reads(n, top, widths) + [Extract(n, top - Sum(widths), w)]
    decreases |widths|
  {
    SumOneMore(widths, w);
    if widths == [] {
      assert [] + [w] == [w] && [w][1..] == [];
      assert Reads(n, top, [w]) == [Extract(n, top, w)] + Reads(n, top - w, []);
    } else {
      assert (widths + [w])[1..] == widths[1..] + [w];
      ReadsOneMore(n, top - widths[0], widths[1..], w);
    }
  }

  lemma ByteAndShift(below: nat, size: nat)
    requires size >= 1 && below < 8 * (size - 1)
    ensures size - 2 - below / 8 >= 0
    ensures 8 * (size - 2 - below / 8) + (7 - below % 8) == 8 * (size - 1) - 1 - below
  {
  }

  lemma Pow2Order(k: nat, h: nat, b: nat)
    requires h < k && Pow2(h) <= b < Pow2(h + 1)
    ensures b < Pow2(k)
  {
    Pow2Mono(h + 1, k);
  }
}
