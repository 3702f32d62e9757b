/** The tile container: a chained offset table whose ranges partition the stream
    behind it and the output in front of it, decoded tile by tile through the
    streaming pipeline. */
module TileStream {
  import opened Bits
  import opened Cudec
  import opened DeviceQueue
  import opened WavePipeline
  import opened DecodeSequences
  import Lz77
  import Schedule
  import PageSpec
  import PageTheorems

  const TILE_SIZE := 65536
  const TILE_SIZE_IDX_64K := 1
  const HEADER_BYTES := 8
  const TOC_ENTRY_BYTES := 4

  datatype Tile = Tile(srcOff: nat, srcSize: nat, dstSize: nat)

  datatype Info = Info(tileCount: nat, total: nat)

  function Read(s: seq<byte>, p: nat, n: nat): nat
    requires p + n <= |s|
  {
    Number(s[p..p + n])
  }

  function Count(s: seq<byte>): nat
    requires |s| >= HEADER_BYTES
  {
    Read(s, 2, 2)
  }

  /** The last tile's output size as declared, where zero stands for a full tile. */
  function LastTileSize(s: seq<byte>): nat
    requires |s| >= HEADER_BYTES
  {
    Read(s, 4, 4) / 4 % 0x4_0000
  }

  function TocEnd(s: seq<byte>): nat
    requires |s| >= HEADER_BYTES
  {
    HEADER_BYTES + TOC_ENTRY_BYTES * Count(s)
  }

  predicate HeaderOk(s: seq<byte>) {
    && |s| >= HEADER_BYTES && s[0] == 0xFF - s[1] && Count(s) != 0
    && Read(s, 4, 4) % 4 == TILE_SIZE_IDX_64K && Read(s, 4, 4) / 0x10_0000 % 0x1000 == 0 && LastTileSize(s) < TILE_SIZE
  }

  /** Where tile `i` starts: behind the table, or where its entry says. */
  function SrcStart(s: seq<byte>, i: nat): nat
    requires |s| >= HEADER_BYTES && TocEnd(s) <= |s| && i < Count(s)
  {
    if i == 0 then TocEnd(s) else Read(s, HEADER_BYTES + TOC_ENTRY_BYTES * i, 4)
  }

  predicate Rises(s: seq<byte>, i: nat)
    requires |s| >= HEADER_BYTES && TocEnd(s) <= |s| && 1 <= i < Count(s)
  {
    SrcStart(s, i - 1) < SrcStart(s, i)
  }

  /** A well-formed envelope: the starts increase, the last tile is not empty, and
      only its end is checked against the stream. */
  predicate Envelope(s: seq<byte>) {
    && HeaderOk(s) && TocEnd(s) <= |s|
    && Read(s, HEADER_BYTES, 4) != 0
    && (forall i :: 1 <= i < Count(s) ==> Rises(s, i))
    && SrcStart(s, Count(s) - 1) + Read(s, HEADER_BYTES, 4) <= |s|
  }

  function DstSum(tiles: seq<Tile>, n: nat): nat
    requires n <= |tiles|
  {
    if n == 0 then 0 else DstSum(tiles, n - 1) + tiles[n - 1].dstSize
  }

  /** Tile `i`'s source begins where the one before it ends. */
  predicate Abuts(tiles: seq<Tile>, i: nat)
    requires 1 <= i < |tiles|
  {
    tiles[i - 1].srcOff + tiles[i - 1].srcSize == tiles[i].srcOff
  }

  /** What the envelope declares its tiles to produce. */
  function Total(s: seq<byte>): int
    requires |s| >= HEADER_BYTES
  {
    Count(s) * TILE_SIZE - (if LastTileSize(s) == 0 then 0 else TILE_SIZE - LastTileSize(s))
  }

  /** The ranges partition both sides: the sources abut from the end of the table
      and end inside the stream, none is empty, and the output sizes add up to a
      total below 2^32. */
  ghost predicate Partition(s: seq<byte>, tiles: seq<Tile>, total: nat) {
    && |tiles| >= 1 && tiles[0].srcOff == HEADER_BYTES + TOC_ENTRY_BYTES * |tiles|
    && (forall i :: 0 <= i < |tiles| ==> tiles[i].srcSize >= 1 && tiles[i].srcOff + tiles[i].srcSize <= |s|)
    && (forall i :: 1 <= i < |tiles| ==> Abuts(tiles, i))
    && (forall i :: 0 <= i < |tiles| ==> 1 <= tiles[i].dstSize <= TILE_SIZE)
    && (forall i :: 0 <= i < |tiles| - 1 ==> tiles[i].dstSize == TILE_SIZE)
    && total == DstSum(tiles, |tiles|) < 0x1_0000_0000
  }

  /** What an accepted envelope's tile `i` must be. */
  ghost predicate TileIs(s: seq<byte>, i: nat, t: Tile)
    requires Envelope(s) && i < Count(s)
  {
    && t.srcOff == SrcStart(s, i)
    && t.srcSize == (if i + 1 < Count(s) then SrcStart(s, i + 1) - SrcStart(s, i) else Read(s, HEADER_BYTES, 4))
    && t.dstSize == if i + 1 < Count(s) || LastTileSize(s) == 0 then TILE_SIZE else LastTileSize(s)
  }

  /** The chain bounds every start by the last one, so the one check at the end
      bounds every tile. */
  lemma {:induction false} StartsBelowEnd(s: seq<byte>, i: nat, j: nat)
    requires Envelope(s) && i <= j < Count(s)
    ensures SrcStart(s, i) + (j - i) <= SrcStart(s, j)
    decreases j - i
  {
    if i < j {
      StartsBelowEnd(s, i, j - 1);
      assert Rises(s, j);
    }
  }

  lemma CountFits(s: seq<byte>)
    requires |s| >= HEADER_BYTES
    ensures Count(s) <= 65535
  {
    BytePowers();
    NumberBelow(s[2..4]);
  }

  lemma {:induction false} FullTiles(tiles: seq<Tile>, n: nat)
    requires n <= |tiles| && forall i :: 0 <= i < n ==> tiles[i].dstSize == TILE_SIZE
    ensures DstSum(tiles, n) == n * TILE_SIZE
  {
    if n > 0 { FullTiles(tiles, n - 1); }
  }

  /** The table's tiles are a partition. */
  lemma TilesPartition(s: seq<byte>, tiles: seq<Tile>)
    requires Envelope(s) && |tiles| == Count(s) && forall i :: 0 <= i < |tiles| ==> TileIs(s, i, tiles[i])
    ensures Total(s) >= 0 && Partition(s, tiles, Total(s))
  {
    hide SrcStart, Read;
    var n := Count(s);
    CountFits(s);
    FirstStart(s);
    forall i | 0 <= i < n ensures tiles[i].srcSize >= 1 && tiles[i].srcOff + tiles[i].srcSize <= |s| && 1 <= tiles[i].dstSize <= TILE_SIZE {
      assert TileIs(s, i, tiles[i]);
      if i + 1 < n {
        assert Rises(s, i + 1);
        StartsBelowEnd(s, i + 1, n - 1);
      }
    }
    forall i | 1 <= i < n ensures Abuts(tiles, i) {
      assert TileIs(s, i - 1, tiles[i - 1]) && TileIs(s, i, tiles[i]);
    }
    forall i | 0 <= i < n - 1 ensures tiles[i].dstSize == TILE_SIZE {
      assert TileIs(s, i, tiles[i]);
    }
    FullTiles(tiles, n - 1);
  }

  lemma FirstStart(s: seq<byte>)
    requires Envelope(s)
    ensures SrcStart(s, 0) == HEADER_BYTES + TOC_ENTRY_BYTES * Count(s)
  {
  }

  /** The two header rules a caller may size its table by. */
  function TileStreamDeclaredTileCount(s: seq<byte>): (n: nat)
    ensures Envelope(s) ==> n == Count(s) >= 1
  {
    if |s| < HEADER_BYTES || s[0] != 0xFF - s[1] then 0 else Count(s)
  }

  /** Parse the envelope into the caller's table. */
  method TileStreamParse(s: seq<byte>, tiles: array<Tile>, capacity: nat) returns (status: Status, info: Info)
    requires capacity <= tiles.Length
    modifies tiles
    ensures status == Okay <==> Envelope(s) && Count(s) <= capacity
    ensures status == InvalidArgument <==> HeaderOk(s) && Count(s) > capacity
    ensures status == Okay || status == InvalidArgument || status == CorruptInput
    ensures status == Okay ==>
              && info == Info(Count(s), Total(s)) && Count(s) <= tiles.Length && Partition(s, tiles[..info.tileCount], info.total)
              && forall i :: 0 <= i < info.tileCount ==> TileIs(s, i, tiles[i])
  {
    hide Number, Partition;
    info := Info(0, 0);
    if |s| < HEADER_BYTES {
      return CorruptInput, info;
    }
    if s[0] != 0xFF - s[1] {
      return CorruptInput, info;
    }
    var tileCount := Count(s);
    if tileCount == 0 {
      return CorruptInput, info;
    }
    var packed := Read(s, 4, 4);
    var lastTileSize := packed / 4 % 0x4_0000;
    if packed % 4 != TILE_SIZE_IDX_64K || packed / 0x10_0000 % 0x1000 != 0 || lastTileSize >= TILE_SIZE {
      return CorruptInput, info;
    }
    if capacity < tileCount {
      return InvalidArgument, info;
    }
    var tocEnd := HEADER_BYTES + tileCount * TOC_ENTRY_BYTES;
    if |s| < tocEnd {
      return CorruptInput, info;
    }
    var lastSrcSize := Read(s, HEADER_BYTES, 4);
    if lastSrcSize == 0 {
      return CorruptInput, info;
    }
    var chained := ChainOffsets(s, tiles, tileCount, tocEnd);
    if !chained {
      return CorruptInput, info;
    }
    DeriveSizes(s, tiles, tileCount, tocEnd, lastSrcSize);
    if tiles[tileCount - 1].srcOff + tiles[tileCount - 1].srcSize > |s| {
      return CorruptInput, info;
    }
    assert Envelope(s);
    DeriveOutputs(s, tiles, tileCount, lastTileSize);
    var total := tileCount * TILE_SIZE;
    if lastTileSize != 0 {
      total := total - (TILE_SIZE - lastTileSize);
    }
    TilesPartition(s, tiles[..tileCount]);
    return Okay, Info(tileCount, total);
  }

  /** The offsets, each strictly above the one before it. */
  method ChainOffsets(s: seq<byte>, tiles: array<Tile>, tileCount: nat, tocEnd: nat) returns (ok: bool)
    requires |s| >= HEADER_BYTES && 1 <= tileCount == Count(s) <= tiles.Length && tocEnd == TocEnd(s) <= |s|
    modifies tiles
    ensures ok <==> forall i :: 1 <= i < tileCount ==> Rises(s, i)
    ensures ok ==> forall i :: 1 <= i < tileCount ==> tiles[i].srcOff == SrcStart(s, i)
  {
    hide Number;
    var prev := tocEnd;
    for i := 1 to tileCount
      invariant prev == SrcStart(s, i - 1)
      invariant forall j :: 1 <= j < i ==> Rises(s, j)
      invariant forall j :: 1 <= j < i ==> tiles[j].srcOff == SrcStart(s, j)
    {
      var off := Read(s, HEADER_BYTES + i * TOC_ENTRY_BYTES, 4);
      assert off == SrcStart(s, i);
      if off <= prev {
        assert !Rises(s, i);
        return false;
      }
      tiles[i] := tiles[i].(srcOff := off);
      prev := off;
    }
    ok := true;
  }

  /** The sizes, by subtraction along the chain. */
  method DeriveSizes(s: seq<byte>, tiles: array<Tile>, tileCount: nat, tocEnd: nat, lastSrcSize: nat)
    requires |s| >= HEADER_BYTES && 1 <= tileCount == Count(s) <= tiles.Length && tocEnd == TocEnd(s) <= |s|
    requires forall i :: 1 <= i < tileCount ==> Rises(s, i)
    requires forall i :: 1 <= i < tileCount ==> tiles[i].srcOff == SrcStart(s, i)
    modifies tiles
    ensures forall i :: 0 <= i < tileCount ==> tiles[i].srcOff == SrcStart(s, i)
    ensures forall i :: 0 <= i < tileCount - 1 ==> tiles[i].srcSize == SrcStart(s, i + 1) - SrcStart(s, i)
    ensures tiles[tileCount - 1].srcSize == lastSrcSize
  {
    hide Read;
    tiles[0] := tiles[0].(srcOff := tocEnd);
    var i := 0;
    while i + 1 < tileCount
      invariant i < tileCount
      invariant forall j :: 0 <= j < tileCount ==> tiles[j].srcOff == SrcStart(s, j)
      invariant forall j :: 0 <= j < i ==> tiles[j].srcSize == SrcStart(s, j + 1) - SrcStart(s, j)
    {
      assert Rises(s, i + 1);
      tiles[i] := tiles[i].(srcSize := tiles[i + 1].srcOff - tiles[i].srcOff);
      i := i + 1;
    }
    tiles[tileCount - 1] := tiles[tileCount - 1].(srcSize := lastSrcSize);
  }

  method DeriveOutputs(s: seq<byte>, tiles: array<Tile>, tileCount: nat, lastTileSize: nat)
    requires Envelope(s) && 1 <= tileCount == Count(s) <= tiles.Length && lastTileSize == LastTileSize(s)
    requires forall i :: 0 <= i < tileCount ==> tiles[i].srcOff == SrcStart(s, i)
    requires forall i :: 0 <= i < tileCount - 1 ==> tiles[i].srcSize == SrcStart(s, i + 1) - SrcStart(s, i)
    requires tiles[tileCount - 1].srcSize == Read(s, HEADER_BYTES, 4)
    modifies tiles
    ensures forall i :: 0 <= i < tileCount ==> TileIs(s, i, tiles[i])
  {
    hide SrcStart, Read, Envelope, LastTileSize;
    var i := 0;
    while i + 1 < tileCount
      invariant i < tileCount
      invariant forall j :: 0 <= j < tileCount ==> tiles[j].srcOff == old(tiles[j].srcOff) && tiles[j].srcSize == old(tiles[j].srcSize)
      invariant forall j :: 0 <= j < i ==> tiles[j].dstSize == TILE_SIZE
    {
      tiles[i] := tiles[i].(dstSize := TILE_SIZE);
      i := i + 1;
    }
    tiles[tileCount - 1] := tiles[tileCount - 1].(dstSize := if lastTileSize == 0 then TILE_SIZE else lastTileSize);
  }

  // ----- writing an envelope -----

  /** The payloads before the `n`th, end to end. */
  function Joined(payloads: seq<seq<byte>>, n: nat): seq<byte>
    requires n <= |payloads|
  {
    if n == 0 then [] else Joined(payloads, n - 1) + payloads[n - 1]
  }

  /** Where payload `i` starts in the stream. */
  function Start(payloads: seq<seq<byte>>, i: nat): nat
    requires i <= |payloads|
  {
    HEADER_BYTES + TOC_ENTRY_BYTES * |payloads| + |Joined(payloads, i)|
  }

  /** The table's first `n` entries: the last payload's size, then the starts of
      the payloads behind the first. */
  function Toc(payloads: seq<seq<byte>>, n: nat): (w: seq<byte>)
    requires n <= |payloads|
    ensures |w| == TOC_ENTRY_BYTES * n
  {
    if n == 0 then []
    else Toc(payloads, n - 1) + Little(if n == 1 then |payloads[|payloads| - 1]| else Start(payloads, n - 1), 4)
  }

  /** Every payload holds something, and every start and the last size fit their
      four bytes. Only the start of the last payload need: its end may lie beyond. */
  predicate Enclosable(payloads: seq<seq<byte>>, lastTileSize: nat) {
    && 1 <= |payloads| <= 65535 && lastTileSize < TILE_SIZE
    && (forall i :: 0 <= i < |payloads| ==> payloads[i] != [])
    && Start(payloads, |payloads| - 1) < 0x1_0000_0000 && |payloads[|payloads| - 1]| < 0x1_0000_0000
  }

  function Header(id: byte, payloads: seq<seq<byte>>, lastTileSize: nat): (w: seq<byte>)
    ensures |w| == HEADER_BYTES
  {
    [0xFF - id, id] + (Little(|payloads|, 2) + Little(TILE_SIZE_IDX_64K + 4 * lastTileSize, 4))
  }

  function Enclose(id: byte, payloads: seq<seq<byte>>, lastTileSize: nat): seq<byte> {
    Header(id, payloads, lastTileSize) + (Toc(payloads, |payloads|) + Joined(payloads, |payloads|))
  }

  lemma {:induction false} JoinedSlice(payloads: seq<seq<byte>>, i: nat, n: nat)
    requires i < n <= |payloads|
    ensures |Joined(payloads, i)| + |payloads[i]| == |Joined(payloads, i + 1)| <= |Joined(payloads, n)|
    ensures At(Joined(payloads, n), |Joined(payloads, i)|, payloads[i])
  {
    if i + 1 < n {
      JoinedSlice(payloads, i, n - 1);
      var less, p := Joined(payloads, n - 1), payloads[i];
      var at := |Joined(payloads, i)|;
      assert Joined(payloads, n)[at..at + |p|] == less[at..at + |p|];
    }
  }

  lemma {:induction false} TocEntry(payloads: seq<seq<byte>>, i: nat, n: nat)
    requires i < n <= |payloads|
    ensures At(Toc(payloads, n), TOC_ENTRY_BYTES * i, Little(if i == 0 then |payloads[|payloads| - 1]| else Start(payloads, i), 4))
  {
    hide Little;
    var e := Little(if i == 0 then |payloads[|payloads| - 1]| else Start(payloads, i), 4);
    var less := Toc(payloads, n - 1);
    if i + 1 < n {
      TocEntry(payloads, i, n - 1);
      assert Toc(payloads, n)[4 * i..4 * i + 4] == less[4 * i..4 * i + 4];
    } else {
      assert Toc(payloads, n)[4 * i..4 * i + 4] == e;
    }
  }

  lemma AtInside(s: seq<byte>, p: nat, w: seq<byte>, q: nat, v: seq<byte>)
    requires At(s, p, w) && At(w, q, v)
    ensures At(s, p + q, v)
  {
    assert p + q + |v| <= |s|;
    forall k | 0 <= k < |v| ensures s[p + q + k] == v[k] {
      assert v[k] == w[q..q + |v|][k] == w[q + k] == s[p..p + |w|][q + k];
    }
    assert s[p + q..p + q + |v|] == v;
  }

  lemma ReadAt(s: seq<byte>, p: nat, v: nat, n: nat)
    requires At(s, p, Little(v, n)) && v < Pow2(8 * n)
    ensures p + n <= |s| && Read(s, p, n) == v
  {
    LittleInverse(v, n);
  }

  /** The stream begins with the envelope of these payloads. */
  ghost predicate Encloses(s: seq<byte>, id: byte, payloads: seq<seq<byte>>, lastTileSize: nat) {
    Enclosable(payloads, lastTileSize) && At(s, 0, Enclose(id, payloads, lastTileSize))
  }

  /** Where the parts of the envelope lie. */
  lemma EnclosedParts(s: seq<byte>, id: byte, payloads: seq<seq<byte>>, lastTileSize: nat)
    requires Encloses(s, id, payloads, lastTileSize)
    ensures At(s, 0, [0xFF - id, id]) && At(s, 2, Little(|payloads|, 2)) && At(s, 4, Little(TILE_SIZE_IDX_64K + 4 * lastTileSize, 4))
    ensures At(s, HEADER_BYTES, Toc(payloads, |payloads|))
    ensures At(s, HEADER_BYTES + TOC_ENTRY_BYTES * |payloads|, Joined(payloads, |payloads|))
  {
    hide Little, Toc, Joined, At, Enclosable;
    var n, packed := |payloads|, TILE_SIZE_IDX_64K + 4 * lastTileSize;
    AtConcat(s, 0, Header(id, payloads, lastTileSize), Toc(payloads, n) + Joined(payloads, n));
    AtConcat(s, HEADER_BYTES, Toc(payloads, n), Joined(payloads, n));
    AtConcat(s, 0, [0xFF - id, id], Little(n, 2) + Little(packed, 4));
    AtConcat(s, 2, Little(n, 2), Little(packed, 4));
  }

  lemma EnclosedHeader(s: seq<byte>, id: byte, payloads: seq<seq<byte>>, lastTileSize: nat)
    requires Encloses(s, id, payloads, lastTileSize)
    ensures |s| >= Start(payloads, |payloads|) && HeaderOk(s) && Count(s) == |payloads| && LastTileSize(s) == lastTileSize
    ensures At(s, HEADER_BYTES, Toc(payloads, |payloads|)) && At(s, TocEnd(s), Joined(payloads, |payloads|))
  {
    hide Number, Little, Toc, Joined, Enclose, Start;
    EnclosedParts(s, id, payloads, lastTileSize);
    var packed := TILE_SIZE_IDX_64K + 4 * lastTileSize;
    BytePowers();
    AtTwo(s, 0, 0xFF - id, id);
    ReadAt(s, 2, |payloads|, 2);
    ReadAt(s, 4, packed, 4);
    assert packed / 4 == lastTileSize && packed / 0x10_0000 == 0;
    StartIs(payloads);
  }

  lemma StartIs(payloads: seq<seq<byte>>)
    ensures Start(payloads, |payloads|) == HEADER_BYTES + TOC_ENTRY_BYTES * |payloads| + |Joined(payloads, |payloads|)|
  {
  }

  lemma EnclosedEntry(s: seq<byte>, id: byte, payloads: seq<seq<byte>>, lastTileSize: nat, i: nat)
    requires Encloses(s, id, payloads, lastTileSize) && i < |payloads|
    ensures HEADER_BYTES + TOC_ENTRY_BYTES * i + 4 <= |s|
    ensures Read(s, HEADER_BYTES + TOC_ENTRY_BYTES * i, 4) == if i == 0 then |payloads[|payloads| - 1]| else Start(payloads, i)
  {
    hide Read, Little, Toc, HeaderOk, Enclose, At, LastTileSize, Start, Joined, Pow2;
    var n := |payloads|;
    var e := if i == 0 then |payloads[n - 1]| else Start(payloads, i);
    EnclosedHeader(s, id, payloads, lastTileSize);
    EntriesFit(payloads, lastTileSize, i);
    TocEntry(payloads, i, n);
    AtInside(s, HEADER_BYTES, Toc(payloads, n), TOC_ENTRY_BYTES * i, Little(e, 4));
    ReadAt(s, HEADER_BYTES + TOC_ENTRY_BYTES * i, e, 4);
  }

  lemma EntriesFit(payloads: seq<seq<byte>>, lastTileSize: nat, i: nat)
    requires Enclosable(payloads, lastTileSize) && i < |payloads|
    ensures |payloads[|payloads| - 1]| < Pow2(8 * 4) && Start(payloads, i) < Pow2(8 * 4)
  {
    BytePowers();
    if i < |payloads| - 1 { JoinedSlice(payloads, i, |payloads| - 1); }
  }

  lemma EnclosedStarts(s: seq<byte>, id: byte, payloads: seq<seq<byte>>, lastTileSize: nat, i: nat)
    requires Encloses(s, id, payloads, lastTileSize) && i < |payloads|
    ensures HeaderOk(s) && TocEnd(s) <= |s| && Count(s) == |payloads| && SrcStart(s, i) == Start(payloads, i)
    ensures i == 0 ==> Read(s, HEADER_BYTES, 4) == |payloads[|payloads| - 1]|
    ensures At(s, SrcStart(s, i), payloads[i])
  {
    hide Number, Toc, Enclose, At, LastTileSize, Joined;
    var n := |payloads|;
    EnclosedHeader(s, id, payloads, lastTileSize);
    EnclosedEntry(s, id, payloads, lastTileSize, i);
    JoinedSlice(payloads, i, n);
    NothingJoined(payloads);
    AtInside(s, TocEnd(s), Joined(payloads, n), |Joined(payloads, i)|, payloads[i]);
  }

  lemma NothingJoined(payloads: seq<seq<byte>>)
    ensures Joined(payloads, 0) == []
  {
  }

  /** Enclosing payloads and parsing the envelope gives the payloads back, whatever
      lies behind it: every tile's range is its own payload, with nothing between. */
  lemma EnvelopeRoundTrip(s: seq<byte>, id: byte, payloads: seq<seq<byte>>, lastTileSize: nat)
    requires Encloses(s, id, payloads, lastTileSize)
    ensures Envelope(s) && Count(s) == |payloads| && LastTileSize(s) == lastTileSize
    ensures forall i, t :: 0 <= i < |payloads| && TileIs(s, i, t) ==>
              && At(s, t.srcOff, payloads[i]) && t.srcSize == |payloads[i]|
              && t.dstSize == if i == |payloads| - 1 && lastTileSize != 0 then lastTileSize else 0x1_0000
    ensures Total(s) == 0x1_0000 * (|payloads| - 1) + (if lastTileSize != 0 then lastTileSize else 0x1_0000)
  {
    hide Read, Toc, Joined, Enclose, SrcStart;
    var n := |payloads|;
    EnclosedHeader(s, id, payloads, lastTileSize);
    EnclosedStarts(s, id, payloads, lastTileSize, 0);
    forall i | 0 <= i < n ensures SrcStart(s, i) == Start(payloads, i) && At(s, SrcStart(s, i), payloads[i]) {
      EnclosedStarts(s, id, payloads, lastTileSize, i);
    }
    forall i | 0 <= i < n ensures Start(payloads, i) + |payloads[i]| == Start(payloads, i + 1) {
      JoinedSlice(payloads, i, i + 1);
    }
    forall i | 1 <= i < n ensures Rises(s, i) {
      assert Start(payloads, i - 1) + |payloads[i - 1]| == Start(payloads, (i - 1) + 1);
    }
    forall i, t | 0 <= i < n && TileIs(s, i, t) ensures t.srcSize == |payloads[i]| {
      assert SrcStart(s, i) == Start(payloads, i);
      if i + 1 < n { assert SrcStart(s, i + 1) == Start(payloads, i + 1); }
    }
  }

  /** Where tile `i` ends. */
  function SrcEnd(s: seq<byte>, i: nat): nat
    requires |s| >= HEADER_BYTES && TocEnd(s) <= |s| && i < Count(s)
  {
    if i + 1 < Count(s) then SrcStart(s, i + 1) else SrcStart(s, i) + Read(s, HEADER_BYTES, 4)
  }

  lemma EndInside(s: seq<byte>, i: nat)
    requires Envelope(s) && i < Count(s)
    ensures TocEnd(s) <= SrcStart(s, i) < SrcEnd(s, i) <= |s|
  {
    hide Read;
    FirstStart(s);
    StartsBelowEnd(s, 0, i);
    if i + 1 < Count(s) {
      assert Rises(s, i + 1);
      StartsBelowEnd(s, i + 1, Count(s) - 1);
    }
  }

  /** The first `n` tiles' sources. */
  function Sources(s: seq<byte>, n: nat): (payloads: seq<seq<byte>>)
    requires Envelope(s) && n <= Count(s)
    ensures |payloads| == n
  {
    if n == 0 then []
    else
      EndInside(s, n - 1);
      Sources(s, n - 1) + [s[SrcStart(s, n - 1)..SrcEnd(s, n - 1)]]
  }

  lemma {:induction false} SlicesAre(s: seq<byte>, n: nat)
    requires Envelope(s) && n <= Count(s)
    ensures forall i :: 0 <= i < n ==> TocEnd(s) <= SrcStart(s, i) < SrcEnd(s, i) <= |s| && Sources(s, n)[i] == s[SrcStart(s, i)..SrcEnd(s, i)]
  {
    hide Read, SrcStart, SrcEnd, Envelope;
    if n > 0 {
      SlicesAre(s, n - 1);
      EndInside(s, n - 1);
    }
  }

  lemma EndIsStart(s: seq<byte>, i: nat)
    requires Envelope(s) && i + 1 < Count(s)
    ensures SrcEnd(s, i) == SrcStart(s, i + 1)
  {
  }

  lemma {:induction false} SlicesJoin(s: seq<byte>, payloads: seq<seq<byte>>, n: nat)
    requires Envelope(s) && payloads == Sources(s, Count(s)) && 1 <= n <= Count(s)
    ensures TocEnd(s) <= SrcEnd(s, n - 1) <= |s| && Joined(payloads, n) == s[TocEnd(s)..SrcEnd(s, n - 1)]
  {
    hide Read, Envelope, Sources, SrcStart, SrcEnd;
    EnvelopeParts(s);
    SlicesAre(s, Count(s));
    FirstStart(s);
    NothingJoined(payloads);
    if n > 1 {
      SlicesJoin(s, payloads, n - 1);
      EndIsStart(s, n - 2);
      assert s[TocEnd(s)..SrcStart(s, n - 1)] + s[SrcStart(s, n - 1)..SrcEnd(s, n - 1)] == s[TocEnd(s)..SrcEnd(s, n - 1)];
    }
  }

  lemma {:induction false} TocIs(s: seq<byte>, payloads: seq<seq<byte>>, n: nat)
    requires Envelope(s) && payloads == Sources(s, Count(s)) && n <= Count(s)
    ensures Toc(payloads, n) == s[HEADER_BYTES..HEADER_BYTES + TOC_ENTRY_BYTES * n]
  {
    hide Number, Little, Sources, Joined;
    if n > 0 {
      TocIs(s, payloads, n - 1);
      var at := HEADER_BYTES + TOC_ENTRY_BYTES * (n - 1);
      EntryIs(s, payloads, n - 1);
      LittleOfNumber(s[at..at + 4]);
      assert s[HEADER_BYTES..at] + s[at..at + 4] == s[HEADER_BYTES..at + 4];
    }
  }

  lemma EntryIs(s: seq<byte>, payloads: seq<seq<byte>>, i: nat)
    requires Envelope(s) && payloads == Sources(s, Count(s)) && i < Count(s)
    ensures HEADER_BYTES + TOC_ENTRY_BYTES * i + 4 <= |s|
    ensures Read(s, HEADER_BYTES + TOC_ENTRY_BYTES * i, 4) == if i == 0 then |payloads[|payloads| - 1]| else Start(payloads, i)
  {
    hide Number, Little, Sources, Joined, Toc;
    SlicesAre(s, Count(s));
    if i > 0 {
      SlicesJoin(s, payloads, i);
      assert SrcEnd(s, i - 1) == SrcStart(s, i);
    }
  }

  /** An accepted envelope is one that encloses its own tiles' sources, with
      whatever lies behind them. */
  lemma EnvelopeIsEnclosed(s: seq<byte>) returns (payloads: seq<seq<byte>>)
    requires Envelope(s)
    ensures Encloses(s, s[1], payloads, LastTileSize(s))
  {
    hide Number, Little, Sources, Joined, Toc, SrcStart;
    var n := Count(s);
    payloads := Sources(s, n);
    SlicesAre(s, n);
    CountFits(s);
    SlicesJoin(s, payloads, n);
    TocIs(s, payloads, n);
    HeaderIs(s, payloads);
    LastFits(s, payloads);
    var w := Enclose(s[1], payloads, LastTileSize(s));
    var end := SrcEnd(s, n - 1);
    assert s[..TocEnd(s)] == s[..HEADER_BYTES] + s[HEADER_BYTES..TocEnd(s)];
    assert w == s[..HEADER_BYTES] + (s[HEADER_BYTES..TocEnd(s)] + s[TocEnd(s)..end]);
    assert w == s[..end] == s[0..0 + |w|];
  }

  /** The envelopes accepted are exactly those that enclose some payloads. */
  lemma AcceptedIsEnclosed(s: seq<byte>)
    ensures Envelope(s) <==> exists id, payloads, lastTileSize :: Encloses(s, id, payloads, lastTileSize)
  {
    hide Envelope, Encloses;
    if Envelope(s) {
      EnvelopeParts(s);
      var payloads := EnvelopeIsEnclosed(s);
    }
    forall id, payloads, lastTileSize | Encloses(s, id, payloads, lastTileSize) ensures Envelope(s) {
      EnvelopeRoundTrip(s, id, payloads, lastTileSize);
    }
  }

  lemma HeaderIs(s: seq<byte>, payloads: seq<seq<byte>>)
    requires Envelope(s) && |payloads| == Count(s)
    ensures Header(s[1], payloads, LastTileSize(s)) == s[..HEADER_BYTES]
  {
    hide Number, Little;
    LittleOfNumber(s[2..4]);
    LittleOfNumber(s[4..8]);
    NumberBelow(s[4..8]);
    BytePowers();
    PackedIs(Read(s, 4, 4));
    assert s[..8] == [s[0], s[1]] + (s[2..4] + s[4..8]);
  }

  lemma PackedIs(packed: nat)
    requires packed < 0x1_0000_0000 && packed % 4 == TILE_SIZE_IDX_64K && packed / 0x10_0000 % 0x1000 == 0
    ensures packed == TILE_SIZE_IDX_64K + 4 * (packed / 4 % 0x4_0000)
  {
    assert packed / 0x10_0000 < 0x1000;
  }

  lemma LastFits(s: seq<byte>, payloads: seq<seq<byte>>)
    requires Envelope(s) && payloads == Sources(s, Count(s))
    ensures Enclosable(payloads, LastTileSize(s))
  {
    hide Number, Little, Sources, Joined, Toc, Envelope;
    EnvelopeParts(s);
    var n := Count(s);
    SlicesAre(s, n);
    CountFits(s);
    EntryIs(s, payloads, n - 1);
    EntryIs(s, payloads, 0);
    BytePowers();
    NumberBelow(s[HEADER_BYTES..HEADER_BYTES + 4]);
    NumberBelow(s[HEADER_BYTES + TOC_ENTRY_BYTES * (n - 1)..HEADER_BYTES + TOC_ENTRY_BYTES * (n - 1) + 4]);
    if n == 1 { NothingJoined(payloads); }
  }

  lemma EnvelopeParts(s: seq<byte>)
    requires Envelope(s)
    ensures HeaderOk(s) && TocEnd(s) <= |s|
  {
  }

  // ----- planning and running -----

  /** The batch an accepted call decodes. */
  datatype Plan = Plan(total: nat, srcs: seq<seq<byte>>, dstOffs: seq<nat>, dstCaps: seq<nat>)

  predicate Follows(p: Plan, i: nat)
    requires 1 <= i < |p.dstOffs| && |p.dstOffs| == |p.dstCaps|
  {
    p.dstOffs[i - 1] + p.dstCaps[i - 1] == p.dstOffs[i]
  }

  ghost predicate Planned(s: seq<byte>, i: nat, src: seq<byte>, cap: nat)
    requires Envelope(s) && i < Count(s)
  {
    exists t :: TileIs(s, i, t) && At(s, t.srcOff, src) && |src| == t.srcSize && cap == t.dstSize
  }

  /** The planned sources are the tiles' ranges; the planned destinations abut
      from zero to the total. */
  ghost predicate PlanOk(s: seq<byte>, p: Plan) {
    && Envelope(s) && |p.srcs| == |p.dstOffs| == |p.dstCaps| == Count(s)
    && (forall i :: 0 <= i < Count(s) ==> Planned(s, i, p.srcs[i], p.dstCaps[i]))
    && p.dstOffs[0] == 0
    && (forall i :: 1 <= i < Count(s) ==> Follows(p, i))
    && p.total == p.dstOffs[Count(s) - 1] + p.dstCaps[Count(s) - 1] < 0x1_0000_0000
    && (forall i :: 0 <= i < Count(s) ==> 1 <= p.dstCaps[i] && p.dstOffs[i] + p.dstCaps[i] <= p.total)
  }

  method BuildTileStreamPlan(s: seq<byte>, dstCapacity: nat, resultsCapacity: nat) returns (status: Status, p: Plan)
    ensures status == if !Envelope(s) then CorruptInput
                      else if Count(s) > resultsCapacity then InvalidArgument
                      else if Total(s) > dstCapacity then OutputTooSmall
                      else Okay
    ensures status == Okay ==> PlanOk(s, p) && p.total == Total(s)
  {
    hide SrcStart, Read, Envelope, TileIs;
    p := Plan(0, [], [], []);
    var declared := TileStreamDeclaredTileCount(s);
    var tiles := new Tile[if declared != 0 then declared else 1](_ => Tile(0, 0, 0));
    var info;
    DeclaredIsEnough(s);
    status, info := TileStreamParse(s, tiles, declared);
    if status != Okay {
      return;
    }
    var n := info.tileCount;
    if resultsCapacity < n {
      return InvalidArgument, p;
    }
    if info.total > UINT64_MAX {
      assert false;
    }
    if dstCapacity < info.total {
      return OutputTooSmall, p;
    }
    p := PlanTiles(s, tiles, n, info.total);
    status := Okay;
  }

  method PlanTiles(s: seq<byte>, tiles: array<Tile>, n: nat, total: nat) returns (p: Plan)
    requires Envelope(s) && n == Count(s) <= tiles.Length && Partition(s, tiles[..n], total)
    requires forall i :: 0 <= i < n ==> TileIs(s, i, tiles[i])
    ensures PlanOk(s, p) && p.total == total
  {
    hide SrcStart, Read, Envelope, TileIs, Partition, DstSum, PlanOk;
    ghost var table := tiles[..n];
    PartitionSays(s, table, total);
    DstSumStep(table, 0);
    var srcs: seq<seq<byte>>, offs: seq<nat>, caps: seq<nat>, outOff: nat := [], [], [], 0;
    for i := 0 to n
      invariant |srcs| == |offs| == |caps| == i && outOff == DstSum(table, i)
      invariant forall j :: 0 <= j < i ==> srcs[j] == s[table[j].srcOff..table[j].srcOff + table[j].srcSize]
      invariant forall j :: 0 <= j < i ==> offs[j] == DstSum(table, j) && caps[j] == table[j].dstSize
    {
      assert tiles[i] == table[i];
      DstSumStep(table, i);
      srcs := srcs + [s[tiles[i].srcOff..tiles[i].srcOff + tiles[i].srcSize]];
      offs := offs + [outOff];
      caps := caps + [tiles[i].dstSize];
      outOff := outOff + tiles[i].dstSize;
    }
    p := Plan(total, srcs, offs, caps);
    PlanFromTable(s, table, p);
  }

  /** A header that parses declares the count the parse will want. */
  lemma DeclaredIsEnough(s: seq<byte>)
    ensures HeaderOk(s) ==> TileStreamDeclaredTileCount(s) == Count(s)
    ensures Envelope(s) ==> HeaderOk(s)
  {
  }

  lemma {:induction false} DstSumGrows(tiles: seq<Tile>, a: nat, b: nat)
    requires a <= b <= |tiles|
    ensures DstSum(tiles, a) <= DstSum(tiles, b)
  {
    if a < b { DstSumGrows(tiles, a, b - 1); }
  }

  lemma DstSumStep(tiles: seq<Tile>, i: nat)
    requires i < |tiles|
    ensures DstSum(tiles, 0) == 0 && DstSum(tiles, i + 1) == DstSum(tiles, i) + tiles[i].dstSize
  {
  }

  lemma PartitionSays(s: seq<byte>, tiles: seq<Tile>, total: nat)
    requires Partition(s, tiles, total)
    ensures total == DstSum(tiles, |tiles|) < 0x1_0000_0000 && |tiles| >= 1
    ensures forall i :: 0 <= i < |tiles| ==> tiles[i].srcOff + tiles[i].srcSize <= |s| && 1 <= tiles[i].dstSize
  {
  }

  lemma PlanFromTable(s: seq<byte>, table: seq<Tile>, p: Plan)
    requires Envelope(s) && |table| == Count(s) && Partition(s, table, p.total)
    requires forall i :: 0 <= i < |table| ==> TileIs(s, i, table[i])
    requires |p.srcs| == |p.dstOffs| == |p.dstCaps| == |table|
    requires forall j :: 0 <= j < |table| ==> p.srcs[j] == s[table[j].srcOff..table[j].srcOff + table[j].srcSize]
    requires forall j :: 0 <= j < |table| ==> p.dstOffs[j] == DstSum(table, j) && p.dstCaps[j] == table[j].dstSize
    ensures PlanOk(s, p)
  {
    hide SrcStart, Read, Envelope, TileIs, Planned, LastTileSize, Partition, DstSum;
    PartitionSays(s, table, p.total);
    DstSumStep(table, 0);
    DstSumStep(table, |table| - 1);
    forall i | 1 <= i < |table| ensures Follows(p, i) {
      DstSumStep(table, i - 1);
    }
    forall i | 0 <= i < |table| ensures p.dstOffs[i] + p.dstCaps[i] <= p.total {
      DstSumStep(table, i);
      DstSumGrows(table, i + 1, |table|);
    }
    forall i | 0 <= i < |table| ensures Planned(s, i, p.srcs[i], p.dstCaps[i]) {
      PlanOne(s, i, table[i]);
    }
  }

  lemma PlanOne(s: seq<byte>, i: nat, t: Tile)
    requires Envelope(s) && i < Count(s) && TileIs(s, i, t) && t.srcOff + t.srcSize <= |s|
    ensures Planned(s, i, s[t.srcOff..t.srcOff + t.srcSize], t.dstSize)
  {
    hide TileIs;
    assert At(s, t.srcOff, s[t.srcOff..t.srcOff + t.srcSize]);
  }

  /** Tile `i`, decoded by itself, is OK and exactly its declared size. */
  predicate TileFull(p: Plan, decode: (seq<byte>, nat) -> Outcome, i: nat)
    requires i < |p.srcs| == |p.dstCaps|
  {
    var o := decode(p.srcs[i], p.dstCaps[i]);
    o.status == Okay && o.claim == p.dstCaps[i]
  }

  /** And its range of the output is that and nothing that was there before. */
  ghost predicate Produced(p: Plan, decode: (seq<byte>, nat) -> Outcome, i: nat, out: seq<byte>)
    requires i < |p.srcs| && |p.srcs| == |p.dstOffs| == |p.dstCaps|
  {
    var o := decode(p.srcs[i], p.dstCaps[i]);
    TileFull(p, decode, i) && |o.bytes| == p.dstCaps[i] && At(out, p.dstOffs[i], o.bytes)
  }

  ghost predicate AllOk(p: Plan, decode: (seq<byte>, nat) -> Outcome)
    requires |p.srcs| == |p.dstCaps|
  {
    forall i :: 0 <= i < |p.srcs| ==> decode(p.srcs[i], p.dstCaps[i]).status == Okay
  }

  ghost predicate AllFull(p: Plan, decode: (seq<byte>, nat) -> Outcome)
    requires |p.srcs| == |p.dstCaps|
  {
    forall i :: 0 <= i < |p.srcs| ==> TileFull(p, decode, i)
  }

  /** A tile's record: its decoder's report, and where every tile decoded but this
      one is short, a corrupt one. */
  function TileRecord(p: Plan, decode: (seq<byte>, nat) -> Outcome, i: nat, checked: bool): Record
    requires i < |p.srcs| == |p.dstCaps|
  {
    var o := decode(p.srcs[i], p.dstCaps[i]);
    if checked && o.claim != p.dstCaps[i] then Record(CorruptInput, 0) else Record(o.status, o.claim)
  }

  /** The tiles' own ranges of the destination, as the pipeline's buffers. */
  function Slices(dst: seq<byte>, p: Plan, n: nat): (b: seq<seq<byte>>)
    requires n <= |p.dstCaps| == |p.dstOffs|
    requires forall i :: 0 <= i < n ==> p.dstOffs[i] + p.dstCaps[i] <= |dst|
    ensures |b| == n && forall i :: 0 <= i < n ==> b[i] == dst[p.dstOffs[i]..p.dstOffs[i] + p.dstCaps[i]]
  {
    if n == 0 then [] else Slices(dst, p, n - 1) + [dst[p.dstOffs[n - 1]..p.dstOffs[n - 1] + p.dstCaps[n - 1]]]
  }

  function TileJob(p: Plan, dst: seq<byte>, hostOut: bool, decode: (seq<byte>, nat) -> Outcome): Job
    requires |p.srcs| == |p.dstOffs| == |p.dstCaps|
    requires forall i :: 0 <= i < |p.srcs| ==> p.dstOffs[i] + p.dstCaps[i] <= |dst|
  {
    Job(p.srcs, p.dstCaps, Slices(dst, p, |p.srcs|), hostOut, decode)
  }

  /** An OK record that reports the declared size is a full tile. */
  lemma FullTile(job: Job, k: nat)
    requires JobOk(job) && k < |job.srcs| && Reported(job, k) == Record(Okay, job.caps[k])
    ensures |Said(job, k).bytes| == job.caps[k] && Expected(job, k) == Said(job, k).bytes
  {
  }

  /** Run an accepted plan. The declared size bounds a tile on both sides: the
      decoder refuses more, and this refuses less. Whatever the answer, the tiles'
      ranges of the destination are what the pipeline left in their buffers. */
  method RunTileStreamPlan(ctx: StreamCtx, s: seq<byte>, p: Plan, dst: array<byte>, hostOut: bool, decode: (seq<byte>, nat) -> Outcome)
    returns (status: Status, bytesWritten: nat, results: seq<Record>, ghost refused: bool)
    requires ctx.Valid() && DecoderInBounds(decode) && |s| <= UINT64_MAX
    requires PlanOk(s, p) && p.total <= dst.Length && |p.srcs| == |p.dstOffs| == |p.dstCaps|
    requires forall i :: 0 <= i < |p.srcs| ==> p.dstOffs[i] + p.dstCaps[i] <= dst.Length
    modifies ctx, dst
    ensures ctx.Valid() && (old(ctx.poisoned) ==> ctx.poisoned && status == DeviceError && dst[..] == old(dst[..]))
    ensures |results| == |p.srcs| && bytesWritten == if status == Okay then p.total else 0
    ensures forall x :: p.total <= x < dst.Length ==> dst[x] == old(dst[x])
    ensures !old(ctx.poisoned) ==>
              |ctx.mem.dsts| == |p.srcs| && forall i :: 0 <= i < |p.srcs| ==> At(dst[..], p.dstOffs[i], ctx.mem.dsts[i])
    ensures !ctx.poisoned && !refused ==>
              && ctx.mem.dsts == SequentialBuffers(TileJob(p, old(dst[..]), hostOut, decode), |p.srcs|)
              && (forall i :: 0 <= i < |p.srcs| ==> results[i] == TileRecord(p, decode, i, AllOk(p, decode)))
              && (if !AllOk(p, decode) then status == FirstBad(results) != Okay && SpeaksFor(status, results) else status == if AllFull(p, decode) then Okay else CorruptInput)
    ensures ctx.poisoned && !refused ==> status == DeviceError
    ensures refused ==> exists k: nat :: k < |p.srcs| && ctx.env.entry(k) == status && status != Okay
    ensures status == Okay ==>
              !ctx.poisoned && !refused && AllFull(p, decode) && forall i :: 0 <= i < |p.srcs| ==> Produced(p, decode, i, dst[..])
    ensures !old(ctx.poisoned) && AllFull(p, decode) && (forall t :: !ctx.env.goesWrong(t)) && (forall k :: ctx.env.entry(k) == Okay) ==>
              status == Okay
  {
    hide Follows, Planned, PlanOk, Safe, Expected, Reported, Slices, DecoderInBounds, FirstBad, SpeaksFor, Produced, JobOk, FitsSizeT, At, TailKept, NoOverclaim, AllOk, AllFull, TileFull, TileRecord, SequentialBuffers, SequentialResults;
    var dead := ctx.poisoned;
    PlanSays(s, p);
    var job := TileJob(p, dst[..], hostOut, decode);
    JobFits(s, p, job);
    NoFullTileOverclaims(p, job);
    ghost var upTo;
    status, results, refused, upTo := ctx.DecodeOnStreamCtx(job);
    bytesWritten := 0;
    if dead {
      return;
    }
    BufferSizes(job, ctx.mem.dsts);
    LayTiles(s, p, ctx.mem.dsts, dst);
    if status != Okay {
      if !ctx.poisoned && !refused {
        RejectedTile(p, job, results);
      }
      return;
    }
    ghost var raw := results;
    var full;
    full, results := CheckTiles(p.dstCaps, results);
    CheckedTiles(p, job, raw, full, results);
    if !full {
      status := CorruptInput;
      return;
    }
    bytesWritten := p.total;
    BuffersAre(job, ctx.mem.dsts);
    TilesProduced(p, job, dst[..]);
  }

  lemma NoFullTileOverclaims(p: Plan, job: Job)
    requires JobOk(job) && job.srcs == p.srcs && job.caps == p.dstCaps && |p.srcs| == |p.dstCaps|
    ensures AllFull(p, job.decode) ==> NoOverclaim(job, 0, |job.srcs|)
  {
    if AllFull(p, job.decode) {
      forall k | 0 <= k < |job.srcs| ensures !Overclaims(job, k) {
        assert TileFull(p, job.decode, k);
      }
    }
  }

  /** A call that decoded every tile and did not find them all OK. */
  lemma RejectedTile(p: Plan, job: Job, raw: seq<Record>)
    requires JobOk(job) && job.srcs == p.srcs && job.caps == p.dstCaps && |p.srcs| == |p.dstCaps|
    requires raw == SequentialResults(job) && FirstBad(raw) != Okay
    ensures !AllOk(p, job.decode) && forall i :: 0 <= i < |p.srcs| ==> raw[i] == TileRecord(p, job.decode, i, false)
    ensures !AllFull(p, job.decode)
  {
    hide FirstBad, DecoderInBounds;
    OkMeansEveryChunk(raw);
    var k :| 0 <= k < |raw| && raw[k].status != Okay;
    assert Reported(job, k) == raw[k] && !TileFull(p, job.decode, k);
  }

  /** A call that did, and then had their sizes checked. */
  lemma CheckedTiles(p: Plan, job: Job, raw: seq<Record>, full: bool, results: seq<Record>)
    requires JobOk(job) && job.srcs == p.srcs && job.caps == p.dstCaps && |p.srcs| == |p.dstCaps|
    requires raw == SequentialResults(job) && FirstBad(raw) == Okay && |results| == |raw|
    requires forall i :: 0 <= i < |raw| ==> results[i] == if raw[i].written == p.dstCaps[i] then raw[i] else Record(CorruptInput, 0)
    requires full <==> forall i :: 0 <= i < |raw| ==> raw[i].written == p.dstCaps[i]
    ensures AllOk(p, job.decode) && forall i :: 0 <= i < |p.srcs| ==> results[i] == TileRecord(p, job.decode, i, true)
    ensures full <==> AllFull(p, job.decode)
  {
    hide FirstBad, DecoderInBounds;
    OkMeansEveryChunk(raw);
    forall i | 0 <= i < |raw| ensures raw[i] == Reported(job, i) && raw[i].status == Okay {
    }
    if !full {
      var i :| 0 <= i < |raw| && raw[i].written != p.dstCaps[i];
      assert !TileFull(p, job.decode, i);
    }
  }

  lemma BuffersAre(job: Job, buffers: seq<seq<byte>>)
    requires JobOk(job) && buffers == SequentialBuffers(job, |job.srcs|)
    ensures |buffers| == |job.srcs| && forall i :: 0 <= i < |job.srcs| ==> buffers[i] == Expected(job, i)
  {
  }

  lemma BufferSizes(job: Job, buffers: seq<seq<byte>>)
    requires JobOk(job) && |buffers| == |job.srcs| && forall k :: 0 <= k < |job.srcs| ==> TailKept(job, k, buffers[k])
    ensures forall k :: 0 <= k < |job.srcs| ==> |buffers[k]| == job.caps[k]
  {
  }

  /** Full tiles' buffers, laid down, are the tiles produced. */
  lemma TilesProduced(p: Plan, job: Job, out: seq<byte>)
    requires JobOk(job) && job.srcs == p.srcs && job.caps == p.dstCaps && |p.dstOffs| == |p.srcs| == |p.dstCaps|
    requires AllFull(p, job.decode) && forall i :: 0 <= i < |p.srcs| ==> At(out, p.dstOffs[i], Expected(job, i))
    ensures forall i :: 0 <= i < |p.srcs| ==> Produced(p, job.decode, i, out)
  {
    hide At, Expected, DecoderInBounds, JobOk;
    forall i | 0 <= i < |p.srcs| ensures Produced(p, job.decode, i, out) {
      assert TileFull(p, job.decode, i);
      FullTile(job, i);
    }
  }

  /** A tile that decoded short is stamped corrupt; one is enough to refuse. */
  method CheckTiles(caps: seq<nat>, results: seq<Record>) returns (full: bool, results': seq<Record>)
    requires |caps| == |results|
    ensures |results'| == |results|
    ensures forall i :: 0 <= i < |results| ==> results'[i] == if results[i].written == caps[i] then results[i] else Record(CorruptInput, 0)
    ensures full <==> forall i :: 0 <= i < |results| ==> results[i].written == caps[i]
  {
    full, results' := true, results;
    for i := 0 to |results|
      invariant |results'| == |results|
      invariant forall k :: i <= k < |results| ==> results'[k] == results[k]
      invariant forall k :: 0 <= k < i ==> results'[k] == if results[k].written == caps[k] then results[k] else Record(CorruptInput, 0)
      invariant full <==> forall k :: 0 <= k < i ==> results[k].written == caps[k]
    {
      if results'[i].written != caps[i] {
        results' := results'[i := Record(CorruptInput, 0)];
        full := false;
      }
    }
  }

  /** The tiles' buffers are ranges of the destination, one behind another. */
  method LayTiles(s: seq<byte>, p: Plan, buffers: seq<seq<byte>>, dst: array<byte>)
    requires PlanOk(s, p) && p.total <= dst.Length
    requires |buffers| == |p.srcs| && forall i :: 0 <= i < |buffers| && i < |p.dstCaps| ==> |buffers[i]| == p.dstCaps[i]
    modifies dst
    ensures |p.dstOffs| == |buffers| && forall i :: 0 <= i < |buffers| ==> At(dst[..], p.dstOffs[i], buffers[i])
    ensures forall x :: p.total <= x < dst.Length ==> dst[x] == old(dst[x])
  {
    hide Follows, PlanOk, At;
    PlanSays(s, p);
    EnvelopeOfPlan(s, p);
    var laid := 0;
    for i := 0 to |buffers|
      invariant laid == (if i < |p.srcs| then p.dstOffs[i] else p.total) <= p.total
      invariant forall k :: 0 <= k < i ==> At(dst[..laid], p.dstOffs[k], buffers[k])
      invariant forall x :: p.total <= x < dst.Length ==> dst[x] == old(dst[x])
    {
      NextTile(s, p, i);
      ghost var was := dst[..laid];
      CopyOut(dst, p.dstOffs[i], buffers[i]);
      assert dst[..laid + |buffers[i]|] == was + buffers[i];
      forall k | 0 <= k < i ensures At(was + buffers[i], p.dstOffs[k], buffers[k]) {
        AtLonger(was, buffers[i], p.dstOffs[k], buffers[k]);
      }
      AtEnd(was, buffers[i]);
      laid := laid + |buffers[i]|;
    }
    assert dst[..laid] + dst[laid..] == dst[..];
    forall k | 0 <= k < |buffers| ensures At(dst[..], p.dstOffs[k], buffers[k]) {
      AtLonger(dst[..laid], dst[laid..], p.dstOffs[k], buffers[k]);
    }
  }

  lemma AtLonger(s: seq<byte>, more: seq<byte>, p: nat, w: seq<byte>)
    requires At(s, p, w)
    ensures At(s + more, p, w)
  {
    assert (s + more)[p..p + |w|] == s[p..p + |w|];
  }

  lemma AtEnd(s: seq<byte>, w: seq<byte>)
    ensures At(s + w, |s|, w)
  {
  }

  lemma PlanSays(s: seq<byte>, p: Plan)
    requires PlanOk(s, p)
    ensures |p.srcs| == |p.dstOffs| == |p.dstCaps| && 1 <= |p.srcs| <= 65535
    ensures forall i :: 0 <= i < |p.srcs| ==> p.dstOffs[i] + p.dstCaps[i] <= p.total && |p.srcs[i]| <= |s| && p.dstCaps[i] < 0x1_0000_0000
    ensures p.dstOffs[0] == 0
  {
    hide Follows;
    CountFits(s);
    forall i | 0 <= i < |p.srcs| ensures |p.srcs[i]| <= |s| {
      assert Planned(s, i, p.srcs[i], p.dstCaps[i]);
    }
  }

  lemma JobFits(s: seq<byte>, p: Plan, job: Job)
    requires PlanOk(s, p) && |s| <= UINT64_MAX && job.srcs == p.srcs && job.caps == p.dstCaps && DecoderInBounds(job.decode)
    requires |job.dsts| == |p.srcs| && forall i :: 0 <= i < |p.srcs| ==> |job.dsts[i]| == p.dstCaps[i]
    ensures JobOk(job) && FitsSizeT(job)
  {
    PlanSays(s, p);
  }

  lemma NextTile(s: seq<byte>, p: Plan, i: nat)
    requires PlanOk(s, p) && i < |p.srcs|
    ensures (if i + 1 < |p.srcs| then p.dstOffs[i + 1] else p.total) == p.dstOffs[i] + p.dstCaps[i]
  {
    if i + 1 < |p.srcs| { assert Follows(p, i + 1); }
  }

  // ----- tiles that are GDeflate pages -----

  /** The status a refused page reports. */
  function StatusFor(why: Schedule.Reject): Status {
    match why
    case StoredPastCap => OutputTooSmall
    case LiteralPastCap => OutputTooSmall
    case MatchPastCap => OutputTooSmall
    case _ => CorruptInput
  }

  /** A batch decoder that decodes pages: what one page, by itself, says. */
  ghost predicate DecodesPages(decode: (seq<byte>, nat) -> Outcome) {
    forall page, cap :: decode(page, cap) == PageOutcome(page, cap)
  }

  ghost function PageOutcome(page: seq<byte>, cap: nat): Outcome {
    match PageSpec.ReadPage(page, cap)
    case Refused(why) => Outcome(StatusFor(why), 0, [])
    case Ok(said) =>
      PageTheorems.PageIsWellFormed(page, cap);
      Outcome(Okay, Lz77.OutLen(said.tokens), Lz77.Execute(said.tokens))
  }

  /** A page decoder never leaves its capacity, nor claims what it has not
      written. */
  lemma PagesInBounds(decode: (seq<byte>, nat) -> Outcome)
    requires DecodesPages(decode)
    ensures DecoderInBounds(decode)
  {
    forall page, cap ensures decode(page, cap).claim == |decode(page, cap).bytes| <= cap {
      assert decode(page, cap) == PageOutcome(page, cap);
    }
  }

  /** The in-order execution of the first `n` pages' tokens, end to end. */
  ghost function PagesOutput(p: Plan, n: nat): seq<byte>
    requires n <= |p.srcs| && |p.srcs| == |p.dstCaps|
  {
    if n == 0 then [] else PagesOutput(p, n - 1) + PageOutcome(p.srcs[n - 1], p.dstCaps[n - 1]).bytes
  }

  lemma {:induction false} ProducedPages(s: seq<byte>, p: Plan, decode: (seq<byte>, nat) -> Outcome, out: seq<byte>, n: nat)
    requires PlanOk(s, p) && DecodesPages(decode) && n <= |p.srcs| && p.total <= |out|
    requires forall i :: 0 <= i < |p.srcs| ==> Produced(p, decode, i, out)
    ensures (if n < |p.srcs| then p.dstOffs[n] else p.total) <= |out|
    ensures PagesOutput(p, n) == out[..if n < |p.srcs| then p.dstOffs[n] else p.total]
  {
    hide PageOutcome, PlanOk;
    PlanSays(s, p);
    if n > 0 {
      ProducedPages(s, p, decode, out, n - 1);
      NextTile(s, p, n - 1);
      assert Produced(p, decode, n - 1, out);
      var b := decode(p.srcs[n - 1], p.dstCaps[n - 1]).bytes;
      var at := p.dstOffs[n - 1];
      assert out[..at + |b|] == out[..at] + out[at..at + |b|];
    }
  }

  /** The whole decode. What the envelope, the result table and the destination
      refuse is refused before anything is written. Past that, on a live context
      whose runtime does not fail, the answer is OK exactly when every tile
      produces its declared size; with a batch decoder of pages, the output is then
      the in-order execution of every page's tokens, one page behind another. */
  method DecodeTileStream(ctx: StreamCtx, s: seq<byte>, dst: array<byte>, resultsCapacity: nat, hostOut: bool,
                          decode: (seq<byte>, nat) -> Outcome)
    returns (status: Status, bytesWritten: nat, results: seq<Record>, ghost p: Plan, ghost refused: bool)
    requires ctx.Valid() && (DecoderInBounds(decode) || DecodesPages(decode)) && |s| <= UINT64_MAX
    modifies ctx, dst
    ensures ctx.Valid()
    ensures status != Okay ==> bytesWritten == 0
    ensures !Accepts(s, dst.Length, resultsCapacity) ==>
              && dst[..] == old(dst[..])
              && status == if !Envelope(s) then CorruptInput else if Count(s) > resultsCapacity then InvalidArgument else OutputTooSmall
    ensures Accepts(s, dst.Length, resultsCapacity) ==>
              && PlanOk(s, p) && p.total == Total(s) && |p.srcs| == |p.dstCaps|
              && (status == Okay ==> AllFull(p, decode))
              && (!old(ctx.poisoned) && AllFull(p, decode) && (forall t :: !ctx.env.goesWrong(t)) && (forall k :: ctx.env.entry(k) == Okay) ==>
                    status == Okay)
              && (old(ctx.poisoned) ==> ctx.poisoned && dst[..] == old(dst[..]))
              && (ctx.poisoned && !refused ==> status == DeviceError)
              && (refused ==> exists k: nat :: k < |p.srcs| && ctx.env.entry(k) == status && status != Okay)
              && (!ctx.poisoned && !refused ==>
                    && |results| == |p.srcs| && (forall i :: 0 <= i < |p.srcs| ==> results[i] == TileRecord(p, decode, i, AllOk(p, decode)))
                    && (if !AllOk(p, decode) then status != Okay && SpeaksFor(status, results)
                        else status == if AllFull(p, decode) then Okay else CorruptInput))
    ensures status == Okay ==>
              && Accepts(s, dst.Length, resultsCapacity) && bytesWritten == p.total <= dst.Length && |p.srcs| == |p.dstOffs| == |p.dstCaps|
              && (forall i :: 0 <= i < |p.srcs| ==> Produced(p, decode, i, dst[..]))
              && (DecodesPages(decode) ==> dst[..bytesWritten] == PagesOutput(p, |p.srcs|))
              && forall x :: p.total <= x < dst.Length ==> dst[x] == old(dst[x])
  {
    hide PlanOk, Envelope, DecodesPages, PagesOutput, DecoderInBounds, TileFull, At, SequentialBuffers, FirstBad, SpeaksFor, Produced, AllFull, AllOk, TileRecord, TileJob, Count, Total;
    bytesWritten, results, refused := 0, [], false;
    if DecodesPages(decode) {
      PagesInBounds(decode);
    }
    var plan;
    status, plan := BuildTileStreamPlan(s, dst.Length, resultsCapacity);
    p := plan;
    if status != Okay {
      return;
    }
    EnvelopeOfPlan(s, p);
    PlanSays(s, p);
    status, bytesWritten, results, refused := RunTileStreamPlan(ctx, s, plan, dst, hostOut, decode);
    if status == Okay && DecodesPages(decode) {
      ProducedPages(s, p, decode, dst[..], |p.srcs|);
      assert dst[..][..p.total] == dst[..p.total];
    }
  }

  /** The envelope is well formed and both of the caller's tables hold it. */
  predicate Accepts(s: seq<byte>, dstCapacity: nat, resultsCapacity: nat) {
    Envelope(s) && Count(s) <= resultsCapacity && Total(s) <= dstCapacity
  }

  lemma EnvelopeOfPlan(s: seq<byte>, p: Plan)
    requires PlanOk(s, p)
    ensures Envelope(s) && |p.srcs| == |p.dstOffs| == |p.dstCaps|
  {
  }
}
