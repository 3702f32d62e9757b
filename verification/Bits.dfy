/** Bit strings and the numbers they spell.

    Everything the decoder shifts and masks is, abstractly, a queue of bits. A
    buffer hands its bits out least significant first, a canonical codeword is
    compared most significant first, and the lemmas here are the only place
    where the two orders and the arithmetic on them meet. */
module Bits {

  type byte = b: nat | b < 256

  const UINT64_MAX: nat := 0xFFFF_FFFF_FFFF_FFFF

  function Repeat<T>(x: T, n: nat): (s: seq<T>)
    ensures |s| == n && forall i :: 0 <= i < n ==> s[i] == x
  {
    seq(n, _ => x)
  }

  function Pow2(k: nat): (p: nat)
    ensures p > 0
  {
    if k == 0 then 1 else 2 * Pow2(k - 1)
  }

  /** The number whose bits, least significant first, are `b`. */
  function Low(b: seq<bool>): nat {
    if b == [] then 0 else (if b[0] then 1 else 0) + 2 * Low(b[1..])
  }

  /** The number whose bits, most significant first, are `b`. */
  function High(b: seq<bool>): nat {
    if b == [] then 0 else 2 * High(b[..|b| - 1]) + (if b[|b| - 1] then 1 else 0)
  }

  /** The low `k` bits of `n`, least significant first. */
  function BitsOf(n: nat, k: nat): (b: seq<bool>)
    ensures |b| == k
  {
    if k == 0 then [] else [n % 2 == 1] + BitsOf(n / 2, k - 1)
  }

  /** The low `k` bits of `n`, most significant first. */
  function MsbBits(n: nat, k: nat): (b: seq<bool>)
    ensures |b| == k
  {
    if k == 0 then [] else MsbBits(n / 2, k - 1) + [n % 2 == 1]
  }

  /** Bitwise disjunction, as the source's `|` computes it. */
  function BitOr(a: nat, b: nat): nat
    decreases a + b
  {
    if a == 0 && b == 0 then 0
    else (if a % 2 == 1 || b % 2 == 1 then 1 else 0) + 2 * BitOr(a / 2, b / 2)
  }

  /** `n >> k`. */
  function Shr(n: nat, k: nat): nat {
    if k == 0 then n else Shr(n / 2, k - 1)
  }

  /** `n << k`. */
  function Shl(n: nat, k: nat): nat {
    if k == 0 then n else 2 * Shl(n, k - 1)
  }

  /** `n & ((1 << k) - 1)`. */
  function Mask(n: nat, k: nat): nat {
    if k == 0 then 0 else n % 2 + 2 * Mask(n / 2, k - 1)
  }

  lemma {:induction false} Pow2Add(a: nat, b: nat)
    ensures Pow2(a + b) == Pow2(a) * Pow2(b)
  {
    if a > 0 {
      Pow2Add(a - 1, b);
      MoveTwo(Pow2(b), Pow2(a - 1));
    }
  }

  lemma {:induction false} Pow2Mono(a: nat, b: nat)
    requires a <= b
    ensures Pow2(a) <= Pow2(b)
  {
    if a < b { Pow2Mono(a, b - 1); }
  }

  lemma MulMono(a: int, b: int, c: nat)
    requires a <= b
    ensures a * c <= b * c
  {
  }

  lemma Distribute(a: int, b: int, c: int)
    ensures (a + b) * c == a * c + b * c
    ensures (a - b) * c == a * c - b * c
  {
  }

  lemma MoveTwo(x: int, p: int)
    ensures x * (2 * p) == (2 * x) * p == 2 * (x * p)
  {
  }

  lemma QuotientBounds(b: nat, m: nat)
    requires m >= 1
    ensures (b / m) * m <= b < (b / m + 1) * m
  {
  }

  lemma LessByScale(a: int, b: int, p: nat)
    requires p > 0 && a * p < b * p
    ensures a < b
  {
    Distribute(a, b, p);
    MultipleIsFar(a - b, p);
  }

  lemma AtMostByScale(a: int, b: int, p: nat)
    requires p > 0 && a * p <= b * p
    ensures a <= b
  {
    Distribute(a, b, p);
    MultipleIsFar(a - b, p);
  }

  /** A non-zero multiple of `d` is at least `d` away from zero. */
  lemma MultipleIsFar(x: int, d: nat)
    ensures x >= 1 ==> x * d >= d
    ensures x <= -1 ==> x * d + d <= 0
  {
  }

  /** Quotient and remainder are determined by their defining equation. */
  lemma DivModUnique(n: nat, d: nat, q: nat, r: nat)
    requires d > 0 && r < d && n == q * d + r
    ensures n / d == q && n % d == r
  {
    var x := q - n / d;
    assert x * d == q * d - (n / d) * d;
    MultipleIsFar(x, d);
  }

  lemma DivMod(n: nat, d: nat) returns (q: nat, r: nat)
    requires d > 0
    ensures q == n / d && r == n % d
    ensures n == q * d + r && r < d
  {
    q, r := n / d, n % d;
  }

  /** Shifting right and masking are quotient and remainder. */
  lemma {:induction false} ShrIsDivision(n: nat, k: nat)
    ensures Shr(n, k) == n / Pow2(k) && Mask(n, k) == n % Pow2(k)
  {
    if k > 0 {
      ShrIsDivision(n / 2, k - 1);
      var q, r := DivMod(n / 2, Pow2(k - 1));
      MoveTwo(q, Pow2(k - 1));
      DivModUnique(n, Pow2(k), q, 2 * r + n % 2);
    }
  }

  /** Shifting left is multiplication. */
  lemma {:induction false} ShlIsProduct(n: nat, k: nat)
    ensures Shl(n, k) == n * Pow2(k)
  {
    if k > 0 {
      ShlIsProduct(n, k - 1);
      MoveTwo(n, Pow2(k - 1));
    }
  }

  lemma {:induction false} LowOfBits(n: nat, k: nat)
    ensures Low(BitsOf(n, k)) == Mask(n, k)
  {
    if k > 0 {
      LowOfBits(n / 2, k - 1);
      assert BitsOf(n, k)[1..] == BitsOf(n / 2, k - 1);
    }
  }

  lemma {:induction false} BitsOfLow(b: seq<bool>)
    ensures Low(b) < Pow2(|b|)
    ensures BitsOf(Low(b), |b|) == b
  {
    if b != [] {
      BitsOfLow(b[1..]);
      assert Low(b) / 2 == Low(b[1..]);
    }
  }

  lemma {:induction false} MaskSmall(n: nat, k: nat)
    requires n < Pow2(k)
    ensures Mask(n, k) == n
  {
    if k > 0 { MaskSmall(n / 2, k - 1); }
  }

  lemma {:induction false} MaskBelow(n: nat, k: nat)
    ensures Mask(n, k) < Pow2(k)
    ensures BitsOf(Mask(n, k), k) == BitsOf(n, k)
  {
    if k > 0 { MaskBelow(n / 2, k - 1); }
  }

  /** Numbers with the same low `k` bits are whole strides of 2^k apart. */
  lemma {:induction false} MaskStride(i: nat, j: nat, k: nat)
    ensures Mask(i + Pow2(k), k) == Mask(i, k)
    ensures i < j < i + Pow2(k) ==> Mask(j, k) != Mask(i, k)
  {
    if k > 0 {
      MaskStride(i / 2, j / 2, k - 1);
      assert (i + Pow2(k)) / 2 == i / 2 + Pow2(k - 1);
    }
  }

  /** Two numbers of at most `k` bits with the same bits are the same number. */
  lemma BitsInjective(m: nat, n: nat, k: nat)
    requires m < Pow2(k) && n < Pow2(k)
    requires BitsOf(m, k) == BitsOf(n, k)
    ensures m == n
  {
    LowOfBits(m, k);
    LowOfBits(n, k);
    MaskSmall(m, k);
    MaskSmall(n, k);
  }

  /** A right shift drops bits from the front of the queue. */
  lemma {:induction false} BitsDrop(n: nat, m: nat, k: nat)
    requires m <= k
    ensures BitsOf(n, k)[m..] == BitsOf(Shr(n, m), k - m)
    ensures n < Pow2(k) ==> Shr(n, m) < Pow2(k - m)
  {
    if m > 0 {
      BitsDrop(n / 2, m - 1, k - 1);
      assert BitsOf(n, k)[m..] == BitsOf(n / 2, k - 1)[m - 1..];
    }
  }

  /** A mask keeps bits at the front of the queue. */
  lemma {:induction false} BitsTake(n: nat, m: nat, k: nat)
    requires m <= k
    ensures BitsOf(n, k)[..m] == BitsOf(n, m)
  {
    if m > 0 {
      BitsTake(n / 2, m - 1, k - 1);
      assert BitsOf(n, k)[..m] == [n % 2 == 1] + BitsOf(n / 2, k - 1)[..m - 1];
    }
  }

  lemma OrStep(a: nat, b: nat)
    ensures BitOr(a, b) / 2 == BitOr(a / 2, b / 2)
    ensures BitOr(a, b) % 2 == (if a % 2 == 1 || b % 2 == 1 then 1 else 0)
  {
  }

  lemma {:induction false} OrWithZero(n: nat)
    ensures BitOr(0, n) == n
  {
    if n > 0 { OrWithZero(n / 2); }
  }

  /** Where the bits do not overlap, disjunction is addition: a refill never
      mixes a word into bits the lane already holds. */
  lemma {:induction false} OrIsAddition(n: nat, k: nat, w: nat)
    requires n < Pow2(k)
    ensures BitOr(n, Shl(w, k)) == n + Shl(w, k)
  {
    if k == 0 {
      OrWithZero(w);
    } else {
      OrIsAddition(n / 2, k - 1, w);
      var t := Shl(w, k - 1);
      OrStep(n, 2 * t);
      assert (2 * t) / 2 == t;
    }
  }

  lemma AboveHalves(n: nat, t: nat)
    ensures (n + 2 * t) / 2 == n / 2 + t && (n + 2 * t) % 2 == n % 2
  {
  }

  /** Placing `w` above the `k` bits of `n` appends its bits to the queue. */
  lemma {:induction false} BitsAppend(n: nat, k: nat, w: nat, j: nat)
    requires n < Pow2(k)
    ensures BitsOf(n + Shl(w, k), k + j) == BitsOf(n, k) + BitsOf(w, j)
  {
    if k == 0 {
      assert BitsOf(n, k) + BitsOf(w, j) == BitsOf(w, j);
    } else {
      BitsAppend(n / 2, k - 1, w, j);
      AboveHalves(n, Shl(w, k - 1));
      assert BitsOf(n, k) + BitsOf(w, j) == [n % 2 == 1] + (BitsOf(n / 2, k - 1) + BitsOf(w, j));
    }
  }

  lemma {:induction false} AppendBelow(n: nat, k: nat, w: nat, j: nat)
    requires n < Pow2(k) && w < Pow2(j)
    ensures n + Shl(w, k) < Pow2(k + j)
  {
    if k > 0 {
      AppendBelow(n / 2, k - 1, w, j);
    }
  }

  lemma OrAppends(n: nat, k: nat, w: nat, j: nat)
    requires n < Pow2(k)
    ensures BitOr(n, Shl(w, k)) == n + Shl(w, k)
    ensures BitsOf(n + Shl(w, k), k + j) == BitsOf(n, k) + BitsOf(w, j)
    ensures w < Pow2(j) ==> n + Shl(w, k) < Pow2(k + j)
  {
    OrIsAddition(n, k, w);
    BitsAppend(n, k, w, j);
    if w < Pow2(j) { AppendBelow(n, k, w, j); }
  }

  lemma OrQueues(n: nat, k: nat, w: nat, j: nat)
    requires n < Pow2(k) && w < Pow2(j)
    ensures BitOr(n, Shl(w, k)) < Pow2(k + j)
    ensures BitsOf(BitOr(n, Shl(w, k)), k + j) == BitsOf(n, k) + BitsOf(w, j)
  {
    OrAppends(n, k, w, j);
  }

  lemma BytePowers()
    ensures Pow2(8) == 0x100 && Pow2(16) == 0x1_0000 && Pow2(24) == 0x100_0000 && Pow2(32) == 0x1_0000_0000
  {
    assert Pow2(8) == 0x100;
    Pow2Add(8, 8);
    Pow2Add(16, 8);
    Pow2Add(24, 8);
  }

  lemma ByteShifts(b: nat)
    ensures Pow2(8) == 0x100
    ensures Shl(b, 8) == 0x100 * b && Shl(b, 16) == 0x1_0000 * b && Shl(b, 24) == 0x100_0000 * b
  {
    BytePowers();
    ShlIsProduct(b, 8);
    ShlIsProduct(b, 16);
    ShlIsProduct(b, 24);
  }

  /** The little-endian value of the bytes. */
  function Number(src: seq<byte>): nat {
    if src == [] then 0 else src[0] + 256 * Number(src[1..])
  }

  lemma {:induction false} NumberBelow(src: seq<byte>)
    ensures Number(src) < Pow2(8 * |src|)
  {
    if src != [] {
      NumberBelow(src[1..]);
      ByteShifts(0);
      Pow2Add(8, 8 * |src[1..]|);
    }
  }

  /** A further byte is worth 256 to the number of bytes below it. */
  lemma {:induction false} NumberOneMore(src: seq<byte>, b: byte)
    ensures Number(src + [b]) == Number(src) + Shl(b, 8 * |src|)
  {
    if src == [] {
      assert [] + [b] == [b] && [b][1..] == [];
    } else {
      assert (src + [b])[1..] == src[1..] + [b];
      NumberOneMore(src[1..], b);
      ShlByByte(b, 8 * |src[1..]|);
    }
  }

  lemma {:induction false} ShlAgain(n: nat, a: nat, b: nat)
    ensures Shl(n, a + b) == Shl(Shl(n, b), a)
  {
    if a > 0 { ShlAgain(n, a - 1, b); }
  }

  lemma ShlByByte(n: nat, k: nat)
    ensures Shl(n, k + 8) == 256 * Shl(n, k)
  {
    ShlAgain(n, 8, k);
    ByteShifts(Shl(n, k));
  }

  lemma ScaledBelow(x: nat, len: nat, m: nat)
    requires len <= m && x * Pow2(m - len) <= Pow2(m)
    ensures x <= Pow2(len)
  {
    Pow2Add(len, m - len);
    AtMostByScale(x, Pow2(len), Pow2(m - len));
  }

  lemma {:induction false} HighAppend(a: seq<bool>, b: seq<bool>)
    ensures High(a + b) == High(a) * Pow2(|b|) + High(b)
  {
    if b == [] {
      assert a + b == a;
    } else {
      var b' := b[..|b| - 1];
      HighAppend(a, b');
      assert (a + b)[..|a + b| - 1] == a + b';
      assert High(a) * Pow2(|b|) == 2 * (High(a) * Pow2(|b'|));
    }
  }

  lemma {:induction false} HighBelow(b: seq<bool>)
    ensures High(b) < Pow2(|b|)
  {
    if b != [] { HighBelow(b[..|b| - 1]); }
  }

  lemma {:induction false} HighOfMsbBits(n: nat, k: nat)
    requires n < Pow2(k)
    ensures High(MsbBits(n, k)) == n
  {
    if k > 0 {
      HighOfMsbBits(n / 2, k - 1);
      assert MsbBits(n, k)[..k - 1] == MsbBits(n / 2, k - 1);
    }
  }

  lemma {:induction false} MsbBitsOfHigh(b: seq<bool>)
    ensures MsbBits(High(b), |b|) == b
  {
    if b != [] {
      MsbBitsOfHigh(b[..|b| - 1]);
      assert High(b) / 2 == High(b[..|b| - 1]);
    }
  }

  // ----- byte strings -----

  /** The low `n` bytes of a value, least significant first. */
  function Little(v: nat, n: nat): (w: seq<byte>)
    ensures |w| == n
    decreases n
  {
    if n == 0 then [] else [v % 256] + Little(v / 256, n - 1)
  }

  lemma {:induction false} LittleInverse(v: nat, n: nat)
    requires v < Pow2(8 * n)
    ensures Number(Little(v, n)) == v
    decreases n
  {
    if n > 0 {
      Pow2Add(8, 8 * (n - 1));
      ByteShifts(0);
      LittleInverse(v / 256, n - 1);
      assert Little(v, n)[1..] == Little(v / 256, n - 1);
    }
  }

  lemma {:induction false} LittleOfNumber(w: seq<byte>)
    ensures Little(Number(w), |w|) == w
  {
    if w != [] {
      LittleOfNumber(w[1..]);
      assert Number(w) % 256 == w[0] && Number(w) / 256 == Number(w[1..]);
    }
  }

  /** `w` lies at `p`. */
  ghost predicate At(src: seq<byte>, p: nat, w: seq<byte>) {
    p + |w| <= |src| && src[p..p + |w|] == w
  }

  lemma AtConcat(src: seq<byte>, p: nat, u: seq<byte>, v: seq<byte>)
    ensures At(src, p, u + v) <==> At(src, p, u) && At(src, p + |u|, v)
  {
    var n := |u + v|;
    if p + n <= |src| {
      var w := src[p..p + n];
      assert w[..|u|] == src[p..p + |u|] && w[|u|..] == src[p + |u|..p + n];
      assert (u + v)[..|u|] == u && (u + v)[|u|..] == v;
      assert w == w[..|u|] + w[|u|..];
    }
  }

  lemma AtOne(src: seq<byte>, p: nat, x: byte)
    ensures At(src, p, [x]) <==> p < |src| && src[p] == x
  {
  }

  lemma AtTwo(src: seq<byte>, p: nat, x: byte, y: byte)
    ensures At(src, p, [x, y]) <==> p + 2 <= |src| && src[p] == x && src[p + 1] == y
  {
    assert [x, y] == [x] + [y];
    AtConcat(src, p, [x], [y]);
    AtOne(src, p, x);
    AtOne(src, p + 1, y);
  }
}
