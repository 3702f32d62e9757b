/** Decoding a frame's blocks and putting the output together.

    A compressed block decodes into a device slot of its own. Neighbouring slots
    whose output also lies side by side travel in one asynchronous transfer, and
    the host copies stored blocks meanwhile. Which transfer completes next is the
    device's choice, as is when, up to the drain. */
module FrameAssembly {
  import opened Bits
  import opened Cudec
  import opened DeviceQueue
  import opened DecodeSequences
  import opened Lz4Frame
  import Lz4Format

  type Decoder = (seq<byte>, nat) -> Outcome

  /** What one block contributes. */
  function Plain(f: seq<byte>, b: FrameBlock, blockMax: nat, decode: Decoder): seq<byte> {
    var payload := PayloadOf(f, b).bytes;
    if b.uncompressed then payload
    else
      var o := decode(payload, blockMax);
      if o.claim <= |o.bytes| then o.bytes[..o.claim] else []
  }

  /** A compressed block decodes, and stays inside its slot. */
  predicate Decodes(f: seq<byte>, b: FrameBlock, blockMax: nat, decode: Decoder) {
    var o := decode(PayloadOf(f, b).bytes, blockMax);
    b.uncompressed || (o.status == Okay && o.claim <= blockMax)
  }

  ghost predicate AllDecode(f: seq<byte>, blocks: seq<FrameBlock>, blockMax: nat, decode: Decoder, n: nat)
    requires n <= |blocks|
  {
    forall i :: 0 <= i < n ==> Decodes(f, blocks[i], blockMax, decode)
  }

  /** The output, by plain concatenation of the first `n` blocks. */
  function Joined(f: seq<byte>, blocks: seq<FrameBlock>, blockMax: nat, decode: Decoder, n: nat): seq<byte>
    requires n <= |blocks|
  {
    if n == 0 then [] else Joined(f, blocks, blockMax, decode, n - 1) + Plain(f, blocks[n - 1], blockMax, decode)
  }

  lemma {:induction false} JoinedPrefix(f: seq<byte>, blocks: seq<FrameBlock>, blockMax: nat, decode: Decoder, a: nat, b: nat)
    requires a <= b <= |blocks|
    ensures var all, some := Joined(f, blocks, blockMax, decode, b), Joined(f, blocks, blockMax, decode, a);
            |some| <= |all| && all[..|some|] == some
  {
    hide Plain;
    if a < b {
      JoinedPrefix(f, blocks, blockMax, decode, a, b - 1);
      var all, less := Joined(f, blocks, blockMax, decode, b), Joined(f, blocks, blockMax, decode, b - 1);
      assert all[..|less|] == less;
    } else {
      assert Joined(f, blocks, blockMax, decode, b)[..|Joined(f, blocks, blockMax, decode, b)|] == Joined(f, blocks, blockMax, decode, b);
    }
  }

  /** The compressed blocks among the first `n`. */
  function CompressedBelow(blocks: seq<FrameBlock>, n: nat): nat
    requires n <= |blocks|
  {
    if n == 0 then 0 else CompressedBelow(blocks, n - 1) + if blocks[n - 1].uncompressed then 0 else 1
  }

  lemma {:induction false} CompressedGrows(blocks: seq<FrameBlock>, a: nat, b: nat)
    requires a <= b <= |blocks|
    ensures CompressedBelow(blocks, a) <= CompressedBelow(blocks, b)
    ensures a < b && !blocks[a].uncompressed ==> CompressedBelow(blocks, a) < CompressedBelow(blocks, b)
  {
    if a < b { CompressedGrows(blocks, a, b - 1); }
  }

  /** Where slot `k` of the destination buffer starts. */
  function SlotAt(k: nat, blockMax: nat): nat {
    if k == 0 then 0 else SlotAt(k - 1, blockMax) + blockMax
  }

  lemma {:induction false} SlotIsProduct(k: nat, blockMax: nat)
    ensures SlotAt(k, blockMax) == k * blockMax
  {
    if k > 0 {
      SlotIsProduct(k - 1, blockMax);
      Distribute(k - 1, 1, blockMax);
    }
  }

  lemma {:induction false} SlotsGrow(a: nat, b: nat, blockMax: nat)
    requires a <= b
    ensures SlotAt(a, blockMax) <= SlotAt(b, blockMax)
  {
    if a < b { SlotsGrow(a, b - 1, blockMax); }
  }

  // ----- decoding into the slots -----

  /** The slots of the compressed blocks among the first `n` hold their output. */
  ghost predicate SlotsHold(f: seq<byte>, blocks: seq<FrameBlock>, blockMax: nat, decode: Decoder, n: nat, staging: seq<byte>)
    requires n <= |blocks|
  {
    forall i :: 0 <= i < n && !blocks[i].uncompressed ==> SlotHolds(f, blocks, blockMax, decode, i, staging)
  }

  ghost predicate SlotHolds(f: seq<byte>, blocks: seq<FrameBlock>, blockMax: nat, decode: Decoder, i: nat, staging: seq<byte>)
    requires i < |blocks|
  {
    var p := Plain(f, blocks[i], blockMax, decode);
    At(staging, SlotAt(CompressedBelow(blocks, i), blockMax), p)
  }

  /** The batch decode: every compressed block into its own slot. Any block that
      fails, or claims more than its slot, makes the frame corrupt. */
  method DecodeBlocks(f: seq<byte>, blocks: seq<FrameBlock>, blockMax: nat, decode: Decoder)
    returns (ok: bool, staging: seq<byte>, decodedLen: seq<nat>)
    requires DecoderInBounds(decode)
    ensures ok <==> AllDecode(f, blocks, blockMax, decode, |blocks|)
    ensures ok ==>
              && SlotsHold(f, blocks, blockMax, decode, |blocks|, staging) && |decodedLen| == |blocks|
              && forall i :: 0 <= i < |blocks| ==> decodedLen[i] == if blocks[i].uncompressed then 0 else |Plain(f, blocks[i], blockMax, decode)|
  {
    hide SlotAt, CompressedBelow, Plain, Overlay, SlotsHold, DecoderInBounds;
    var n := CountCompressed(blocks);
    SlotIsProduct(n, blockMax);
    // The slots hold whatever the allocation held.
    var held := Repeat(0 as byte, n * blockMax);
    staging :| |staging| == |held|;
    decodedLen := [];
    var k := 0;
    BelowNone(blocks);
    NoSlotsYet(f, blocks, blockMax, decode, staging);
    for i := 0 to |blocks|
      invariant k == CompressedBelow(blocks, i) <= n == CompressedBelow(blocks, |blocks|) && |staging| == SlotAt(n, blockMax)
      invariant AllDecode(f, blocks, blockMax, decode, i) && |decodedLen| == i
      invariant SlotsHold(f, blocks, blockMax, decode, i, staging)
      invariant forall j :: 0 <= j < i ==> decodedLen[j] == if blocks[j].uncompressed then 0 else |Plain(f, blocks[j], blockMax, decode)|
    {
      var b := blocks[i];
      BelowOne(blocks, i);
      CompressedGrows(blocks, i + 1, |blocks|);
      if b.uncompressed {
        SlotSkipped(f, blocks, blockMax, decode, i, staging);
        decodedLen := decodedLen + [0];
      } else {
        var o := decode(PayloadOf(f, b).bytes, blockMax);
        if o.status != Okay || o.claim > blockMax {
          assert !Decodes(f, blocks[i], blockMax, decode);
          ok := false;
          return;
        }
        SlotIsProduct(k, blockMax);
        SlotsGrow(k + 1, n, blockMax);
        PlainLength(f, b, blockMax, decode);
        SlotTaken(f, blocks, blockMax, decode, i, staging, o.bytes);
        staging := Overlay(staging, k * blockMax, o.bytes);
        decodedLen := decodedLen + [o.claim];
        k := k + 1;
      }
    }
    ok := true;
  }

  lemma NoSlotsYet(f: seq<byte>, blocks: seq<FrameBlock>, blockMax: nat, decode: Decoder, staging: seq<byte>)
    ensures SlotsHold(f, blocks, blockMax, decode, 0, staging)
  {
  }

  lemma SlotSkipped(f: seq<byte>, blocks: seq<FrameBlock>, blockMax: nat, decode: Decoder, i: nat, staging: seq<byte>)
    requires i < |blocks| && blocks[i].uncompressed && SlotsHold(f, blocks, blockMax, decode, i, staging)
    ensures SlotsHold(f, blocks, blockMax, decode, i + 1, staging)
  {
  }

  lemma PlainLength(f: seq<byte>, b: FrameBlock, blockMax: nat, decode: Decoder)
    requires DecoderInBounds(decode) && Decodes(f, b, blockMax, decode) && !b.uncompressed
    ensures |Plain(f, b, blockMax, decode)| == decode(PayloadOf(f, b).bytes, blockMax).claim <= blockMax
  {
  }

  method CountCompressed(blocks: seq<FrameBlock>) returns (n: nat)
    ensures n == CompressedBelow(blocks, |blocks|)
  {
    n := 0;
    for i := 0 to |blocks|
      invariant n == CompressedBelow(blocks, i)
    {
      if !blocks[i].uncompressed {
        n := n + 1;
      }
    }
  }

  lemma BelowNone(blocks: seq<FrameBlock>)
    ensures CompressedBelow(blocks, 0) == 0
  {
  }

  lemma BelowOne(blocks: seq<FrameBlock>, i: nat)
    requires i < |blocks|
    ensures CompressedBelow(blocks, i + 1) == CompressedBelow(blocks, i) + if blocks[i].uncompressed then 0 else 1
  {
  }

  /** Filling one slot leaves the slots below it alone. */
  lemma SlotTaken(f: seq<byte>, blocks: seq<FrameBlock>, blockMax: nat, decode: Decoder, i: nat, staging: seq<byte>, bytes: seq<byte>)
    requires DecoderInBounds(decode) && i < |blocks| && !blocks[i].uncompressed && Decodes(f, blocks[i], blockMax, decode)
    requires bytes == decode(PayloadOf(f, blocks[i]).bytes, blockMax).bytes
    requires SlotsHold(f, blocks, blockMax, decode, i, staging) && AllDecode(f, blocks, blockMax, decode, i)
    requires SlotAt(CompressedBelow(blocks, i) + 1, blockMax) <= |staging|
    ensures SlotsHold(f, blocks, blockMax, decode, i + 1, Overlay(staging, SlotAt(CompressedBelow(blocks, i), blockMax), bytes))
  {
    hide CompressedBelow;
    var at := SlotAt(CompressedBelow(blocks, i), blockMax);
    var staging' := Overlay(staging, at, bytes);
    forall j | 0 <= j < i && !blocks[j].uncompressed ensures SlotHolds(f, blocks, blockMax, decode, j, staging') {
      SlotKept(f, blocks, blockMax, decode, i, j, staging, bytes);
    }
    var p := Plain(f, blocks[i], blockMax, decode);
    assert staging'[at..at + |p|] == bytes[..|p|];
  }

  lemma SlotKept(f: seq<byte>, blocks: seq<FrameBlock>, blockMax: nat, decode: Decoder, i: nat, j: nat,
                 staging: seq<byte>, bytes: seq<byte>)
    requires DecoderInBounds(decode) && j < i < |blocks| && !blocks[j].uncompressed && !blocks[i].uncompressed
    requires SlotsHold(f, blocks, blockMax, decode, i, staging) && AllDecode(f, blocks, blockMax, decode, i)
    requires SlotAt(CompressedBelow(blocks, i), blockMax) + |bytes| <= |staging|
    ensures SlotHolds(f, blocks, blockMax, decode, j, Overlay(staging, SlotAt(CompressedBelow(blocks, i), blockMax), bytes))
  {
    hide CompressedBelow;
    assert SlotHolds(f, blocks, blockMax, decode, j, staging);
    CompressedGrows(blocks, j, i);
    SlotsGrow(CompressedBelow(blocks, j) + 1, CompressedBelow(blocks, i), blockMax);
    PlainLength(f, blocks[j], blockMax, decode);
    var p := Plain(f, blocks[j], blockMax, decode);
    var from := SlotAt(CompressedBelow(blocks, j), blockMax);
    assert from + |p| <= SlotAt(CompressedBelow(blocks, j) + 1, blockMax);
    var staging' := Overlay(staging, SlotAt(CompressedBelow(blocks, i), blockMax), bytes);
    assert staging'[from..from + |p|] == staging[from..from + |p|];
  }

  // ----- copies in flight -----

  datatype Transfer = Transfer(out: nat, dev: nat, len: nat)

  /** A transfer brings bytes of `goal` to their own place. */
  ghost predicate Brings(t: Transfer, staging: seq<byte>, goal: seq<byte>) {
    && t.out + t.len <= |goal| && t.dev + t.len <= |staging|
    && staging[t.dev..t.dev + t.len] == goal[t.out..t.out + t.len]
  }

  predicate Covers(t: Transfer, x: nat) {
    t.out <= x < t.out + t.len
  }

  ghost predicate Covered(pending: seq<Transfer>, x: nat) {
    exists i :: 0 <= i < |pending| && Covers(pending[i], x)
  }

  /** Every byte below `upTo` is in place, or is still as it was and on its way or
      in the run that is still open; nothing from `upTo` on has been touched. */
  ghost predicate Placed(out: seq<byte>, out0: seq<byte>, goal: seq<byte>, upTo: nat, pending: seq<Transfer>, run: Transfer, staging: seq<byte>) {
    && upTo <= |goal| <= |out| == |out0|
    && (forall i :: 0 <= i < |pending| ==> Brings(pending[i], staging, goal) && pending[i].out + pending[i].len <= upTo)
    && Brings(run, staging, goal) && run.out + run.len <= upTo
    && (forall x :: 0 <= x < upTo ==> out[x] == goal[x] || (out[x] == out0[x] && (Covered(pending, x) || Covers(run, x))))
    && (forall x :: upTo <= x < |out| ==> out[x] == out0[x])
  }

  /** The transfers issued so far lie one past another, so no two overlap. */
  ghost predicate Apart(issued: seq<Transfer>) {
    forall i, j :: 0 <= i < j < |issued| ==> issued[i].out + issued[i].len <= issued[j].out
  }

  /** Any transfer may be the next to complete. */
  method CompleteOne(out: array<byte>, ghost out0: seq<byte>, ghost goal: seq<byte>, ghost upTo: nat,
                     pending: seq<Transfer>, ghost run: Transfer, staging: seq<byte>)
    returns (pending': seq<Transfer>)
    requires pending != [] && Placed(out[..], out0, goal, upTo, pending, run, staging)
    modifies out
    ensures |pending'| == |pending| - 1 && Placed(out[..], out0, goal, upTo, pending', run, staging)
  {
    var i: nat :| i < |pending|;
    var t := pending[i];
    ghost var was := out[..];
    CopyOut(out, t.out, staging[t.dev..t.dev + t.len]);
    pending' := pending[..i] + pending[i + 1..];
    Completed(was, out0, goal, upTo, pending, run, staging, i, out[..]);
  }

  lemma Completed(was: seq<byte>, out0: seq<byte>, goal: seq<byte>, upTo: nat, pending: seq<Transfer>, run: Transfer,
                  staging: seq<byte>, i: nat, now: seq<byte>)
    requires Placed(was, out0, goal, upTo, pending, run, staging) && i < |pending|
    requires var t := pending[i]; now == was[..t.out] + staging[t.dev..t.dev + t.len] + was[t.out + t.len..]
    ensures Placed(now, out0, goal, upTo, pending[..i] + pending[i + 1..], run, staging)
  {
    var t, rest := pending[i], pending[..i] + pending[i + 1..];
    Arrives(was, t, staging, goal, now);
    hide Brings, Covers, Covered;
    CoveredWithout(pending, i);
    forall x | 0 <= x < upTo ensures now[x] == goal[x] || (now[x] == out0[x] && (Covered(rest, x) || Covers(run, x))) {
    }
  }

  /** A completed transfer leaves its bytes of `goal` and touches no others. */
  lemma Arrives(was: seq<byte>, t: Transfer, staging: seq<byte>, goal: seq<byte>, now: seq<byte>)
    requires Brings(t, staging, goal) && |goal| <= |was|
    requires now == was[..t.out] + staging[t.dev..t.dev + t.len] + was[t.out + t.len..]
    ensures |now| == |was| && forall x :: 0 <= x < |was| ==> now[x] == if Covers(t, x) then goal[x] else was[x]
  {
    forall x | 0 <= x < |was| ensures now[x] == if Covers(t, x) then goal[x] else was[x] {
      if Covers(t, x) { assert goal[t.out..t.out + t.len][x - t.out] == goal[x]; }
    }
  }

  lemma CoveredWithout(pending: seq<Transfer>, i: nat)
    requires i < |pending|
    ensures forall x: nat :: Covered(pending, x) ==> Covers(pending[i], x) || Covered(pending[..i] + pending[i + 1..], x)
  {
    var rest := pending[..i] + pending[i + 1..];
    forall x: nat | Covered(pending, x) && !Covers(pending[i], x) ensures Covered(rest, x) {
      var j :| 0 <= j < |pending| && Covers(pending[j], x);
      assert rest[if j < i then j else j - 1] == pending[j];
    }
  }

  /** Some of the transfers complete while the host does other things. */
  method CompleteSome(out: array<byte>, ghost out0: seq<byte>, ghost goal: seq<byte>, ghost upTo: nat,
                      pending: seq<Transfer>, ghost run: Transfer, staging: seq<byte>)
    returns (pending': seq<Transfer>)
    requires Placed(out[..], out0, goal, upTo, pending, run, staging)
    modifies out
    ensures Placed(out[..], out0, goal, upTo, pending', run, staging)
  {
    pending' := pending;
    var more: bool := *;
    while more && pending' != []
      invariant Placed(out[..], out0, goal, upTo, pending', run, staging)
      decreases |pending'|
    {
      pending' := CompleteOne(out, out0, goal, upTo, pending', run, staging);
      more := *;
    }
  }

  /** The host copies a stored block while transfers are in flight. */
  lemma HostPlaces(was: seq<byte>, out0: seq<byte>, goal: seq<byte>, upTo: nat, pending: seq<Transfer>, run: Transfer,
                   staging: seq<byte>, bytes: seq<byte>, now: seq<byte>)
    requires Placed(was, out0, goal, upTo, pending, run, staging)
    requires upTo + |bytes| <= |goal| && goal[upTo..upTo + |bytes|] == bytes
    requires now == was[..upTo] + bytes + was[upTo + |bytes|..]
    ensures Placed(now, out0, goal, upTo + |bytes|, pending, run, staging)
  {
    assert forall x :: upTo <= x < upTo + |bytes| ==> now[x] == bytes[x - upTo] == goal[upTo..upTo + |bytes|][x - upTo];
  }

  /** A block joins the open run: contiguous in the slots and in the output. */
  lemma RunGrows(out: seq<byte>, out0: seq<byte>, goal: seq<byte>, upTo: nat, pending: seq<Transfer>, run: Transfer,
                 staging: seq<byte>, bytes: seq<byte>)
    requires Placed(out, out0, goal, upTo, pending, run, staging)
    requires upTo + |bytes| <= |goal| && goal[upTo..upTo + |bytes|] == bytes
    requires run.out + run.len == upTo && At(staging, run.dev + run.len, bytes)
    ensures Placed(out, out0, goal, upTo + |bytes|, pending, run.(len := run.len + |bytes|), staging)
  {
    var grown := run.(len := run.len + |bytes|);
    var n := run.len;
    assert staging[run.dev..run.dev + n + |bytes|] == staging[run.dev..run.dev + n] + staging[run.dev + n..run.dev + n + |bytes|];
    assert goal[run.out..run.out + n + |bytes|] == goal[run.out..run.out + n] + goal[upTo..upTo + |bytes|];
  }

  /** The open run is issued, and a new one opened at the block. */
  lemma RunIssued(out: seq<byte>, out0: seq<byte>, goal: seq<byte>, upTo: nat, pending: seq<Transfer>, run: Transfer,
                  staging: seq<byte>, dev: nat, bytes: seq<byte>)
    requires Placed(out, out0, goal, upTo, pending, run, staging)
    requires upTo + |bytes| <= |goal| && goal[upTo..upTo + |bytes|] == bytes && At(staging, dev, bytes)
    ensures Placed(out, out0, goal, upTo + |bytes|, pending + [run], Transfer(upTo, dev, |bytes|), staging)
    ensures run.len == 0 ==> Placed(out, out0, goal, upTo + |bytes|, pending, Transfer(upTo, dev, |bytes|), staging)
  {
    var more, next := pending + [run], Transfer(upTo, dev, |bytes|);
    forall x | 0 <= x < upTo + |bytes| ensures out[x] == goal[x] || (out[x] == out0[x] && (Covered(more, x) || Covers(next, x))) {
      if x >= upTo {
        assert Covers(next, x);
      } else if Covered(pending, x) {
        var i :| 0 <= i < |pending| && Covers(pending[i], x);
        assert Covers(more[i], x);
      } else if Covers(run, x) {
        assert Covers(more[|pending|], x);
      }
    }
  }

  // ----- which bytes the transfers bring -----

  /** Byte `x` of the output belongs to a compressed block among the first `n`. */
  ghost predicate FromDevice(f: seq<byte>, blocks: seq<FrameBlock>, blockMax: nat, decode: Decoder, n: nat, x: nat)
    requires n <= |blocks|
  {
    exists i :: 0 <= i < n && InCompressed(f, blocks, blockMax, decode, i, x)
  }

  ghost predicate InCompressed(f: seq<byte>, blocks: seq<FrameBlock>, blockMax: nat, decode: Decoder, i: nat, x: nat)
    requires i < |blocks|
  {
    !blocks[i].uncompressed && InBlock(f, blocks, blockMax, decode, i, x)
  }

  ghost predicate InBlock(f: seq<byte>, blocks: seq<FrameBlock>, blockMax: nat, decode: Decoder, i: nat, x: nat)
    requires i < |blocks|
  {
    |Joined(f, blocks, blockMax, decode, i)| <= x < |Joined(f, blocks, blockMax, decode, i + 1)|
  }

  /** No byte belongs to two blocks, so the host's own copies touch none that a
      transfer brings. */
  lemma BlocksApart(f: seq<byte>, blocks: seq<FrameBlock>, blockMax: nat, decode: Decoder, i: nat, j: nat, x: nat)
    requires i < |blocks| && j < |blocks|
    requires InBlock(f, blocks, blockMax, decode, i, x) && InBlock(f, blocks, blockMax, decode, j, x)
    ensures i == j
  {
    hide Joined;
    if i < j { JoinedPrefix(f, blocks, blockMax, decode, i + 1, j); }
    if j < i { JoinedPrefix(f, blocks, blockMax, decode, j + 1, i); }
  }

  /** The transfers cover the bytes of the compressed blocks and no others. */
  ghost predicate Accounted(f: seq<byte>, blocks: seq<FrameBlock>, blockMax: nat, decode: Decoder, n: nat, all: seq<Transfer>)
    requires n <= |blocks|
  {
    forall x: nat :: Covered(all, x) <==> FromDevice(f, blocks, blockMax, decode, n, x)
  }

  lemma DeviceOneMore(f: seq<byte>, blocks: seq<FrameBlock>, blockMax: nat, decode: Decoder, n: nat)
    requires n < |blocks|
    ensures forall x: nat ::
              FromDevice(f, blocks, blockMax, decode, n + 1, x)
              <==> FromDevice(f, blocks, blockMax, decode, n, x) || InCompressed(f, blocks, blockMax, decode, n, x)
  {
    hide InCompressed;
  }

  lemma NoneAccounted(f: seq<byte>, blocks: seq<FrameBlock>, blockMax: nat, decode: Decoder)
    ensures Accounted(f, blocks, blockMax, decode, 0, [Transfer(0, 0, 0)])
  {
  }

  lemma StoredAccounted(f: seq<byte>, blocks: seq<FrameBlock>, blockMax: nat, decode: Decoder, n: nat, all: seq<Transfer>)
    requires n < |blocks| && blocks[n].uncompressed && Accounted(f, blocks, blockMax, decode, n, all)
    ensures Accounted(f, blocks, blockMax, decode, n + 1, all)
  {
    DeviceOneMore(f, blocks, blockMax, decode, n);
  }

  lemma CoveredOneMore(all: seq<Transfer>, t: Transfer)
    ensures forall x: nat :: Covered(all + [t], x) <==> Covered(all, x) || Covers(t, x)
  {
    var more := all + [t];
    forall x: nat ensures Covered(more, x) <==> Covered(all, x) || Covers(t, x) {
      if Covered(all, x) {
        var i :| 0 <= i < |all| && Covers(all[i], x);
        assert Covers(more[i], x);
      }
      if Covers(t, x) { assert Covers(more[|all|], x); }
    }
  }

  /** A compressed block joins the open run. */
  lemma JoinAccounted(f: seq<byte>, blocks: seq<FrameBlock>, blockMax: nat, decode: Decoder, n: nat, issued: seq<Transfer>,
                      run: Transfer, len: nat)
    requires n < |blocks| && !blocks[n].uncompressed && Accounted(f, blocks, blockMax, decode, n, issued + [run])
    requires run.out + run.len == |Joined(f, blocks, blockMax, decode, n)|
    requires run.out + run.len + len == |Joined(f, blocks, blockMax, decode, n + 1)|
    ensures Accounted(f, blocks, blockMax, decode, n + 1, issued + [run.(len := run.len + len)])
  {
    hide FromDevice, Joined, Covered;
    DeviceOneMore(f, blocks, blockMax, decode, n);
    CoveredOneMore(issued, run);
    var grown := run.(len := run.len + len);
    CoveredOneMore(issued, grown);
    forall x: nat ensures Covered(issued + [grown], x) <==> FromDevice(f, blocks, blockMax, decode, n + 1, x) {
      assert Covers(grown, x) <==> Covers(run, x) || InCompressed(f, blocks, blockMax, decode, n, x);
    }
  }

  /** Or it opens the next one. */
  lemma OpenAccounted(f: seq<byte>, blocks: seq<FrameBlock>, blockMax: nat, decode: Decoder, n: nat, all: seq<Transfer>, next: Transfer)
    requires n < |blocks| && !blocks[n].uncompressed && Accounted(f, blocks, blockMax, decode, n, all)
    requires next.out == |Joined(f, blocks, blockMax, decode, n)| && next.out + next.len == |Joined(f, blocks, blockMax, decode, n + 1)|
    ensures Accounted(f, blocks, blockMax, decode, n + 1, all + [next])
  {
    hide FromDevice, Joined, Covered;
    DeviceOneMore(f, blocks, blockMax, decode, n);
    CoveredOneMore(all, next);
    forall x: nat ensures Covered(all + [next], x) <==> FromDevice(f, blocks, blockMax, decode, n + 1, x) {
      assert Covers(next, x) <==> InCompressed(f, blocks, blockMax, decode, n, x);
    }
  }

  lemma RunAccounted(f: seq<byte>, blocks: seq<FrameBlock>, blockMax: nat, decode: Decoder, n: nat, issued: seq<Transfer>, run: Transfer)
    requires n <= |blocks| && Accounted(f, blocks, blockMax, decode, n, issued + [run]) && run.len == 0
    ensures Accounted(f, blocks, blockMax, decode, n, issued)
  {
    hide FromDevice, Covered;
    CoveredOneMore(issued, run);
  }

  /** Each transfer brings bytes of `goal` to their place, they lie one past
      another, and all of them lie below `upTo`. */
  ghost predicate Issued(issued: seq<Transfer>, staging: seq<byte>, goal: seq<byte>, upTo: nat) {
    && Apart(issued)
    && forall j :: 0 <= j < |issued| ==> Brings(issued[j], staging, goal) && issued[j].out + issued[j].len <= upTo
  }

  lemma IssueOne(issued: seq<Transfer>, run: Transfer, staging: seq<byte>, goal: seq<byte>, upTo: nat)
    requires Issued(issued, staging, goal, run.out) && Brings(run, staging, goal) && run.out + run.len <= upTo
    ensures Issued(issued + [run], staging, goal, upTo) && Issued(issued, staging, goal, upTo)
  {
  }

  /** The same out of some staging. */
  ghost predicate Carried(issued: seq<Transfer>, goal: seq<byte>) {
    exists staging :: Issued(issued, staging, goal, |goal|)
  }

  lemma NoneCarried(goal: seq<byte>)
    ensures Carried([], goal)
  {
    assert Issued([], [], goal, |goal|);
  }

  // ----- the assembly -----

  /** What the runtime answers: to the submission of the batch (an answer that is
      not Okay has decoded nothing), to the creation of the assembly's stream, to
      the issue of each transfer, and to the drain. */
  datatype Environment = Environment(setup: Status, streamFails: bool, issueFails: nat -> bool, drainFails: bool)

  ghost predicate Smooth(env: Environment) {
    env.setup == Okay && !env.streamFails && !env.drainFails && forall j :: !env.issueFails(j)
  }

  /** A byte of the output is what it should be or what it was. */
  ghost predicate OldOrNew(out: seq<byte>, out0: seq<byte>, goal: seq<byte>) {
    && |goal| <= |out| == |out0|
    && (forall x :: 0 <= x < |goal| ==> out[x] == goal[x] || out[x] == out0[x])
    && (forall x :: |goal| <= x < |out| ==> out[x] == out0[x])
  }

  lemma PlacedIsOldOrNew(out: seq<byte>, out0: seq<byte>, goal: seq<byte>, upTo: nat, pending: seq<Transfer>, run: Transfer, staging: seq<byte>)
    requires Placed(out, out0, goal, upTo, pending, run, staging)
    ensures OldOrNew(out, out0, goal) && Brings(run, staging, goal)
  {
  }

  /** The transfers still in flight complete, in any order. */
  method Drain(out: array<byte>, ghost out0: seq<byte>, ghost goal: seq<byte>, ghost upTo: nat, pending: seq<Transfer>,
               ghost run: Transfer, staging: seq<byte>)
    requires Placed(out[..], out0, goal, upTo, pending, run, staging)
    modifies out
    ensures Placed(out[..], out0, goal, upTo, [], run, staging)
  {
    hide Placed;
    var left := pending;
    while left != []
      invariant Placed(out[..], out0, goal, upTo, left, run, staging)
      decreases |left|
    {
      left := CompleteOne(out, out0, goal, upTo, left, run, staging);
    }
  }

  /** Where the assembly stands: the run being merged, the transfers in flight,
      and the counters. */
  datatype Assembly = Assembly(run: Transfer, pending: seq<Transfer>, off: nat, k: nat, transfers: nat)

  /** The first `i` blocks have been placed, issued or taken into the run. */
  ghost predicate Assembling(f: seq<byte>, blocks: seq<FrameBlock>, blockMax: nat, decode: Decoder, staging: seq<byte>, env: Environment,
                             out: seq<byte>, out0: seq<byte>, i: nat, a: Assembly, issued: seq<Transfer>)
    requires i <= |blocks|
  {
    var goal := Joined(f, blocks, blockMax, decode, |blocks|);
    && a.k == CompressedBelow(blocks, i) && a.off == |Joined(f, blocks, blockMax, decode, i)|
    && Placed(out, out0, goal, a.off, a.pending, a.run, staging)
    && Issued(issued, staging, goal, a.run.out) && a.run.out + a.run.len <= a.off <= |goal|
    && Accounted(f, blocks, blockMax, decode, i, issued + [a.run])
    && a.transfers == |issued| && |issued| + (if a.run.len != 0 then 1 else 0) <= a.k
    && forall j :: 0 <= j < |issued| ==> !env.issueFails(j)
  }

  lemma AssemblyBegins(f: seq<byte>, blocks: seq<FrameBlock>, blockMax: nat, decode: Decoder, staging: seq<byte>, env: Environment, out: seq<byte>)
    requires |Joined(f, blocks, blockMax, decode, |blocks|)| <= |out|
    ensures Assembling(f, blocks, blockMax, decode, staging, env, out, out, 0, Assembly(Transfer(0, 0, 0), [], 0, 0, 0), [])
  {
    hide Placed, Accounted;
    NothingPlaced(f, blocks, blockMax, decode, out, staging);
    NoneAccounted(f, blocks, blockMax, decode);
    assert [] + [Transfer(0, 0, 0)] == [Transfer(0, 0, 0)];
  }

  /** A stored block: the host copies it while transfers are in flight. */
  method PlaceStored(f: seq<byte>, blocks: seq<FrameBlock>, blockMax: nat, decode: Decoder, staging: seq<byte>, out: array<byte>,
                     env: Environment, i: nat, a: Assembly, ghost out0: seq<byte>, ghost issued: seq<Transfer>)
    returns (a': Assembly)
    requires i < |blocks| && blocks[i].uncompressed && SlotsHold(f, blocks, blockMax, decode, |blocks|, staging)
    requires Assembling(f, blocks, blockMax, decode, staging, env, out[..], out0, i, a, issued)
    modifies out
    ensures Assembling(f, blocks, blockMax, decode, staging, env, out[..], out0, i + 1, a', issued)
  {
    hide Placed, Plain, SlotsHold, Joined, CompressedBelow, SlotAt, Accounted, Issued;
    ghost var goal := Joined(f, blocks, blockMax, decode, |blocks|);
    BelowOne(blocks, i);
    BlockGoes(f, blocks, blockMax, decode, i, staging);
    var pending := CompleteSome(out, out0, goal, a.off, a.pending, a.run, staging);
    var bytes := PayloadOf(f, blocks[i]).bytes;
    PlacedFits(out[..], out0, goal, a.off, pending, a.run, staging);
    ghost var was := out[..];
    CopyOut(out, a.off, bytes);
    HostPlaces(was, out0, goal, a.off, pending, a.run, staging, bytes, out[..]);
    StoredAccounted(f, blocks, blockMax, decode, i, issued + [a.run]);
    a' := a.(pending := pending, off := a.off + |bytes|);
  }

  /** A compressed block: into the open run if it is contiguous on both sides, and
      otherwise the run is issued and a new one opened. */
  method PlaceCompressed(f: seq<byte>, blocks: seq<FrameBlock>, blockMax: nat, decode: Decoder, staging: seq<byte>, out: array<byte>,
                         env: Environment, i: nat, len: nat, a: Assembly, ghost out0: seq<byte>, ghost issued: seq<Transfer>)
    returns (ok: bool, a': Assembly, ghost issued': seq<Transfer>)
    requires i < |blocks| && !blocks[i].uncompressed && SlotsHold(f, blocks, blockMax, decode, |blocks|, staging)
    requires len == |Plain(f, blocks[i], blockMax, decode)|
    requires Assembling(f, blocks, blockMax, decode, staging, env, out[..], out0, i, a, issued)
    modifies out
    ensures ok ==> Assembling(f, blocks, blockMax, decode, staging, env, out[..], out0, i + 1, a', issued')
    ensures !ok ==> GaveUp(f, blocks, blockMax, decode, staging, env, out[..], out0, issued')
  {
    hide Placed, Plain, SlotsHold, Joined, CompressedBelow, SlotAt, Accounted, Issued, GaveUp;
    ghost var goal, p := Joined(f, blocks, blockMax, decode, |blocks|), Plain(f, blocks[i], blockMax, decode);
    BelowOne(blocks, i);
    BlockGoes(f, blocks, blockMax, decode, i, staging);
    SlotIsProduct(a.k, blockMax);
    var pending := CompleteSome(out, out0, goal, a.off, a.pending, a.run, staging);
    var run, dev := a.run, a.k * blockMax;
    ok, issued' := true, issued;
    if run.len != 0 && run.dev + run.len == dev && run.out + run.len == a.off {
      RunGrows(out[..], out0, goal, a.off, pending, run, staging, p);
      JoinAccounted(f, blocks, blockMax, decode, i, issued, run, len);
      a' := Assembly(run.(len := run.len + len), pending, a.off + len, a.k + 1, a.transfers);
      return;
    }
    a' := a.(pending := pending);
    ok, a', issued' := IssueRun(f, blocks, blockMax, decode, staging, out, env, i, a', out0, issued);
    if !ok {
      return;
    }
    RunIssued(out[..], out0, goal, a.off, a'.pending, a'.run, staging, dev, p);
    RunAccounted(f, blocks, blockMax, decode, i, issued', a'.run);
    OpenAccounted(f, blocks, blockMax, decode, i, issued', Transfer(a.off, dev, len));
    IssuedLater(issued', staging, goal, a'.run.out, a.off);
    a' := a'.(run := Transfer(a.off, dev, len), off := a.off + len, k := a.k + 1);
  }

  /** The assembly stopped at a transfer the runtime refused. */
  ghost predicate GaveUp(f: seq<byte>, blocks: seq<FrameBlock>, blockMax: nat, decode: Decoder, staging: seq<byte>, env: Environment,
                         out: seq<byte>, out0: seq<byte>, issued: seq<Transfer>)
  {
    var goal := Joined(f, blocks, blockMax, decode, |blocks|);
    && OldOrNew(out, out0, goal) && Issued(issued, staging, goal, |goal|) && 1 <= |issued| <= CompressedBelow(blocks, |blocks|)
    && env.issueFails(|issued| - 1)
  }

  /** The open run, if there is one, is issued; behind it no run is open. If the
      runtime refuses it, what is in flight is drained. */
  method IssueRun(f: seq<byte>, blocks: seq<FrameBlock>, blockMax: nat, decode: Decoder, staging: seq<byte>, out: array<byte>,
                  env: Environment, i: nat, a: Assembly, ghost out0: seq<byte>, ghost issued: seq<Transfer>)
    returns (ok: bool, a': Assembly, ghost issued': seq<Transfer>)
    requires i <= |blocks| && Assembling(f, blocks, blockMax, decode, staging, env, out[..], out0, i, a, issued)
    modifies out
    ensures ok ==>
              && Assembling(f, blocks, blockMax, decode, staging, env, out[..], out0, i, a', issued')
              && a'.run.len == 0 && a'.off == a.off && a'.k == a.k
    ensures !ok ==> GaveUp(f, blocks, blockMax, decode, staging, env, out[..], out0, issued')
  {
    hide Placed, Plain, Joined, CompressedBelow, SlotAt, Accounted, Issued, OldOrNew, Brings;
    ghost var goal := Joined(f, blocks, blockMax, decode, |blocks|);
    ok, a', issued' := true, a, issued;
    if a.run.len == 0 {
      return;
    }
    var none := Transfer(a.off, 0, 0);
    CompressedGrows(blocks, i, |blocks|);
    PlacedIsOldOrNew(out[..], out0, goal, a.off, a.pending, a.run, staging);
    IssueOne(issued, a.run, staging, goal, a.off);
    IssuedLater(issued + [a.run], staging, goal, a.off, |goal|);
    issued' := issued + [a.run];
    if env.issueFails(a.transfers) {
      Drain(out, out0, goal, a.off, a.pending, a.run, staging);
      PlacedIsOldOrNew(out[..], out0, goal, a.off, [], a.run, staging);
      ok := false;
      return;
    }
    RunIssued(out[..], out0, goal, a.off, a.pending, a.run, staging, 0, []);
    NoneOpen(f, blocks, blockMax, decode, i, issued', none);
    a' := a.(run := none, pending := a.pending + [a.run], transfers := a.transfers + 1);
  }

  lemma NoneOpen(f: seq<byte>, blocks: seq<FrameBlock>, blockMax: nat, decode: Decoder, n: nat, all: seq<Transfer>, none: Transfer)
    requires n <= |blocks| && Accounted(f, blocks, blockMax, decode, n, all) && none.len == 0
    ensures Accounted(f, blocks, blockMax, decode, n, all + [none])
  {
    hide FromDevice, Covered;
    CoveredOneMore(all, none);
  }

  lemma IssuedLater(issued: seq<Transfer>, staging: seq<byte>, goal: seq<byte>, a: nat, b: nat)
    requires Issued(issued, staging, goal, a) && a <= b
    ensures Issued(issued, staging, goal, b)
  {
  }

  /** Copy every block to its place. It fails exactly when the runtime refuses one
      of the transfers it issues, or the drain; what is in flight by then is
      drained all the same. When it succeeds, the transfers it issued lie one past
      another, each brought its own bytes, and together they cover the bytes of
      the compressed blocks and no others. */
  method Assemble(f: seq<byte>, blocks: seq<FrameBlock>, blockMax: nat, decode: Decoder, staging: seq<byte>,
                  decodedLen: seq<nat>, out: array<byte>, env: Environment)
    returns (ok: bool, ghost issued: seq<Transfer>)
    requires SlotsHold(f, blocks, blockMax, decode, |blocks|, staging) && |decodedLen| == |blocks|
    requires forall i :: 0 <= i < |blocks| ==>
                           decodedLen[i] == if blocks[i].uncompressed then 0 else |Plain(f, blocks[i], blockMax, decode)|
    requires |Joined(f, blocks, blockMax, decode, |blocks|)| <= out.Length
    modifies out
    ensures var goal := Joined(f, blocks, blockMax, decode, |blocks|);
            && (ok <==> (CompressedBelow(blocks, |blocks|) == 0 || !env.drainFails) && forall j :: 0 <= j < |issued| ==> !env.issueFails(j))
            && OldOrNew(out[..], old(out[..]), goal)
            && Issued(issued, staging, goal, |goal|) && |issued| <= CompressedBelow(blocks, |blocks|)
            && (ok ==> out[..|goal|] == goal && Accounted(f, blocks, blockMax, decode, |blocks|, issued))
  {
    hide Placed, Plain, SlotsHold, Joined, CompressedBelow, SlotAt, Accounted, Issued, OldOrNew, Brings, Assembling;
    ghost var out0, goal := out[..], Joined(f, blocks, blockMax, decode, |blocks|);
    var a := Assembly(Transfer(0, 0, 0), [], 0, 0, 0);
    issued := [];
    AssemblyBegins(f, blocks, blockMax, decode, staging, env, out0);
    for i := 0 to |blocks|
      invariant Assembling(f, blocks, blockMax, decode, staging, env, out[..], out0, i, a, issued)
    {
      if blocks[i].uncompressed {
        a := PlaceStored(f, blocks, blockMax, decode, staging, out, env, i, a, out0, issued);
      } else {
        ok, a, issued := PlaceCompressed(f, blocks, blockMax, decode, staging, out, env, i, decodedLen[i], a, out0, issued);
        if !ok {
          return;
        }
      }
    }
    ok, a, issued := IssueRun(f, blocks, blockMax, decode, staging, out, env, |blocks|, a, out0, issued);
    if !ok {
      return;
    }
    AllIssued(f, blocks, blockMax, decode, staging, env, out[..], out0, a, issued);
    if a.k != 0 && env.drainFails {
      var left := CompleteSome(out, out0, goal, a.off, a.pending, a.run, staging);
      PlacedIsOldOrNew(out[..], out0, goal, a.off, left, a.run, staging);
      return false, issued;
    }
    Drain(out, out0, goal, a.off, a.pending, a.run, staging);
    PlacedIsOldOrNew(out[..], out0, goal, a.off, [], a.run, staging);
    AllPlaced(out[..], out0, goal, a.off, a.run, staging);
    assert out[..][..|goal|] == out[..|goal|];
  }

  lemma AllIssued(f: seq<byte>, blocks: seq<FrameBlock>, blockMax: nat, decode: Decoder, staging: seq<byte>, env: Environment,
                  out: seq<byte>, out0: seq<byte>, a: Assembly, issued: seq<Transfer>)
    requires Assembling(f, blocks, blockMax, decode, staging, env, out, out0, |blocks|, a, issued) && a.run.len == 0
    ensures var goal := Joined(f, blocks, blockMax, decode, |blocks|);
            && a.k == CompressedBelow(blocks, |blocks|) && a.off == |goal|
            && Placed(out, out0, goal, a.off, a.pending, a.run, staging)
            && Issued(issued, staging, goal, |goal|) && |issued| <= a.k
            && Accounted(f, blocks, blockMax, decode, |blocks|, issued)
            && forall j :: 0 <= j < |issued| ==> !env.issueFails(j)
  {
    hide Placed, Accounted, Issued, Joined, CompressedBelow;
    IssuedLater(issued, staging, Joined(f, blocks, blockMax, decode, |blocks|), a.run.out, a.off);
    RunAccounted(f, blocks, blockMax, decode, |blocks|, issued, a.run);
  }

  lemma NothingPlaced(f: seq<byte>, blocks: seq<FrameBlock>, blockMax: nat, decode: Decoder, out: seq<byte>, staging: seq<byte>)
    requires |Joined(f, blocks, blockMax, decode, |blocks|)| <= |out|
    ensures Joined(f, blocks, blockMax, decode, 0) == []
    ensures Placed(out, out, Joined(f, blocks, blockMax, decode, |blocks|), 0, [], Transfer(0, 0, 0), staging)
  {
  }

  lemma PlacedFits(out: seq<byte>, out0: seq<byte>, goal: seq<byte>, upTo: nat, pending: seq<Transfer>, run: Transfer, staging: seq<byte>)
    requires Placed(out, out0, goal, upTo, pending, run, staging)
    ensures |goal| <= |out|
  {
  }

  /** Where block `i` goes, and where it comes from. */
  lemma BlockGoes(f: seq<byte>, blocks: seq<FrameBlock>, blockMax: nat, decode: Decoder, i: nat, staging: seq<byte>)
    requires i < |blocks| && SlotsHold(f, blocks, blockMax, decode, |blocks|, staging)
    ensures var p, goal, off := Plain(f, blocks[i], blockMax, decode), Joined(f, blocks, blockMax, decode, |blocks|), |Joined(f, blocks, blockMax, decode, i)|;
            && |Joined(f, blocks, blockMax, decode, i + 1)| == off + |p| <= |goal| && goal[off..off + |p|] == p
            && (!blocks[i].uncompressed ==> At(staging, SlotAt(CompressedBelow(blocks, i), blockMax), p))
            && (blocks[i].uncompressed ==> p == PayloadOf(f, blocks[i]).bytes)
  {
    hide At, SlotAt, CompressedBelow, Plain, PayloadOf;
    PlainOfStored(f, blocks[i], blockMax, decode);
    var p, goal, some := Plain(f, blocks[i], blockMax, decode), Joined(f, blocks, blockMax, decode, |blocks|), Joined(f, blocks, blockMax, decode, i);
    JoinedPrefix(f, blocks, blockMax, decode, i + 1, |blocks|);
    assert goal[|some|..|some| + |p|] == goal[..|some + p|][|some|..];
    if !blocks[i].uncompressed { assert SlotHolds(f, blocks, blockMax, decode, i, staging); }
  }

  lemma PlainOfStored(f: seq<byte>, b: FrameBlock, blockMax: nat, decode: Decoder)
    ensures b.uncompressed ==> Plain(f, b, blockMax, decode) == PayloadOf(f, b).bytes
  {
  }

  lemma AllPlaced(out: seq<byte>, out0: seq<byte>, goal: seq<byte>, total: nat, run: Transfer, staging: seq<byte>)
    requires Placed(out, out0, goal, total, [], run, staging) && run.len == 0 && total == |goal|
    ensures out[..total] == goal && forall x :: total <= x < |out| ==> out[x] == out0[x]
  {
  }

  // ----- the frame -----

  /** Decode and assemble. Every refusal of the frame, and the refusal of the
      batch, is made before a byte of `out` is written; past that only the runtime
      can fail, and then every byte is what it should be or what it was. */
  method DecodeAndAssemble(f: seq<byte>, blocks: seq<FrameBlock>, blockMax: nat, decode: Decoder, out: array<byte>, cap: nat,
                           env: Environment)
    returns (status: Status, total: nat, ghost issued: seq<Transfer>)
    requires DecoderInBounds(decode) && cap <= out.Length
    modifies out
    ensures var goal := Joined(f, blocks, blockMax, decode, |blocks|);
            var n := CompressedBelow(blocks, |blocks|);
            && status == (if Overflows(blocks, blockMax) then CorruptInput
                          else if n != 0 && env.setup != Okay then env.setup
                          else if !AllDecode(f, blocks, blockMax, decode, |blocks|) then CorruptInput
                          else if |goal| > cap then OutputTooSmall
                          else if n != 0 && AssemblyFails(env, issued) then DeviceError
                          else Okay)
            && (out[..] != old(out[..]) ==> |goal| <= cap && OldOrNew(out[..], old(out[..]), goal))
            && (status == Okay ==> total == |goal| && out[..total] == goal)
            && |issued| <= n && Carried(issued, goal)
            && (status == Okay ==> Accounted(f, blocks, blockMax, decode, |blocks|, issued))
    ensures forall x :: cap <= x < out.Length ==> out[x] == old(out[x])
    ensures status == Okay ==> total <= cap && forall x :: total <= x < out.Length ==> out[x] == old(out[x])
  {
    hide SlotsHold, AllDecode, Plain, Joined, DecoderInBounds, CompressedBelow, Issued, Accounted;
    total, issued := 0, [];
    ghost var goal := Joined(f, blocks, blockMax, decode, |blocks|);
    NoneCarried(goal);
    var n := CountCompressed(blocks);
    if n != 0 && ((blockMax != 0 && n > UINT64_MAX / blockMax) || n > UINT64_MAX / META_BYTES) {
      return CorruptInput, total, issued;
    }
    if n != 0 && env.setup != Okay {
      return env.setup, total, issued;
    }
    var ok, staging, decodedLen := DecodeBlocks(f, blocks, blockMax, decode);
    if !ok {
      return CorruptInput, total, issued;
    }
    var fits;
    fits, total := MeasureBlocks(f, blocks, blockMax, decode, decodedLen, cap);
    if !fits {
      return OutputTooSmall, 0, issued;
    }
    if n != 0 && env.streamFails {
      return DeviceError, 0, issued;
    }
    ok, issued := Assemble(f, blocks, blockMax, decode, staging, decodedLen, out, env);
    assert Carried(issued, goal);
    if !ok {
      return DeviceError, 0, issued;
    }
    status := Okay;
  }

  /** The capacity walk. */
  method MeasureBlocks(f: seq<byte>, blocks: seq<FrameBlock>, blockMax: nat, decode: Decoder, decodedLen: seq<nat>, cap: nat)
    returns (fits: bool, total: nat)
    requires |decodedLen| == |blocks|
    requires forall i :: 0 <= i < |blocks| ==>
                           decodedLen[i] == if blocks[i].uncompressed then 0 else |Plain(f, blocks[i], blockMax, decode)|
    ensures fits <==> |Joined(f, blocks, blockMax, decode, |blocks|)| <= cap
    ensures fits ==> total == |Joined(f, blocks, blockMax, decode, |blocks|)|
  {
    hide Plain, Joined;
    total := 0;
    NoneJoined(f, blocks, blockMax, decode);
    for i := 0 to |blocks|
      invariant total == |Joined(f, blocks, blockMax, decode, i)| <= cap
    {
      JoinOne(f, blocks, blockMax, decode, i);
      var len := if blocks[i].uncompressed then |PayloadOf(f, blocks[i]).bytes| else decodedLen[i];
      if len > cap - total {
        JoinedPrefix(f, blocks, blockMax, decode, i + 1, |blocks|);
        return false, total;
      }
      total := total + len;
    }
    fits := true;
  }

  /** The runtime refused the stream, one of the transfers issued, or the drain. */
  ghost predicate AssemblyFails(env: Environment, issued: seq<Transfer>) {
    env.streamFails || env.drainFails || exists j :: 0 <= j < |issued| && env.issueFails(j)
  }

  /** Four pointer-sized metadata entries a block. */
  const META_BYTES := 32

  /** More slots, or more metadata, than a size_t can count. */
  predicate Overflows(blocks: seq<FrameBlock>, blockMax: nat) {
    var n := CompressedBelow(blocks, |blocks|);
    (blockMax != 0 && n > UINT64_MAX / blockMax) || n > UINT64_MAX / META_BYTES
  }

  lemma NoneJoined(f: seq<byte>, blocks: seq<FrameBlock>, blockMax: nat, decode: Decoder)
    ensures Joined(f, blocks, blockMax, decode, 0) == []
  {
  }

  lemma JoinOne(f: seq<byte>, blocks: seq<FrameBlock>, blockMax: nat, decode: Decoder, i: nat)
    requires i < |blocks|
    ensures |Joined(f, blocks, blockMax, decode, i + 1)| == |Joined(f, blocks, blockMax, decode, i)| + |Plain(f, blocks[i], blockMax, decode)|
    ensures blocks[i].uncompressed ==> Plain(f, blocks[i], blockMax, decode) == PayloadOf(f, blocks[i]).bytes
  {
  }

  /** What a frame comes to: its content, or that it is corrupt, or that its
      content does not fit. */
  ghost predicate FrameContains(f: seq<byte>, d: Descriptor, hash: Checksum, decode: Decoder, content: seq<byte>) {
    && DescribedBy(f, d, hash) && d.bodyOff <= |f|
    && var t := WalkFrom(f, d.bodyOff, d, hash);
       && t.Table? && !Overflows(t.blocks, d.blockMax)
       && AllDecode(f, t.blocks, d.blockMax, decode, |t.blocks|)
       && content == Joined(f, t.blocks, d.blockMax, decode, |t.blocks|)
       && TailHolds(f, d, t.tail, content, hash)
  }

  /** A frame whose blocks all decode, to more than the output can hold. */
  ghost predicate FrameOverruns(f: seq<byte>, d: Descriptor, hash: Checksum, decode: Decoder, cap: nat) {
    && DescribedBy(f, d, hash) && d.bodyOff <= |f|
    && var t := WalkFrom(f, d.bodyOff, d, hash);
       && t.Table? && !Overflows(t.blocks, d.blockMax)
       && AllDecode(f, t.blocks, d.blockMax, decode, |t.blocks|)
       && |Joined(f, t.blocks, d.blockMax, decode, |t.blocks|)| > cap
  }

  /** The first thing a described frame is refused for, if anything. */
  ghost function FrameStatus(f: seq<byte>, d: Descriptor, hash: Checksum, decode: Decoder, cap: nat, env: Environment,
                             issued: seq<Transfer>): Status
    requires d.bodyOff <= |f|
  {
    match WalkFrom(f, d.bodyOff, d, hash)
    case Stopped(_) => CorruptInput
    case Table(blocks, tail) =>
      var n, content := CompressedBelow(blocks, |blocks|), Joined(f, blocks, d.blockMax, decode, |blocks|);
      if Overflows(blocks, d.blockMax) then CorruptInput
      else if n != 0 && env.setup != Okay then env.setup
      else if !AllDecode(f, blocks, d.blockMax, decode, |blocks|) then CorruptInput
      else if |content| > cap then OutputTooSmall
      else if n != 0 && AssemblyFails(env, issued) then DeviceError
      else if !TailHolds(f, d, tail, content, hash) then CorruptInput
      else Okay
  }

  /** What the status of a described frame says of it when the runtime does not
      fail. */
  lemma StatusMeans(f: seq<byte>, d: Descriptor, hash: Checksum, decode: Decoder, cap: nat, env: Environment, issued: seq<Transfer>)
    requires DescribedBy(f, d, hash) && d.bodyOff <= |f| && Smooth(env)
    ensures var status := FrameStatus(f, d, hash, decode, cap, env, issued);
            && (status == Okay <==> exists x, content :: FrameContains(f, x, hash, decode, content) && |content| <= cap)
            && (status == OutputTooSmall <==> exists x :: FrameOverruns(f, x, hash, decode, cap))
            && (status == Okay || status == OutputTooSmall || status == CorruptInput)
  {
    hide WalkFrom, AllDecode, Joined, TailHolds, DescribedBy, Overflows;
    OneFrame(f, d, hash);
    var status := FrameStatus(f, d, hash, decode, cap, env, issued);
    if status == Okay {
      var t := WalkFrom(f, d.bodyOff, d, hash);
      assert FrameContains(f, d, hash, decode, Joined(f, t.blocks, d.blockMax, decode, |t.blocks|));
    }
    if status == OutputTooSmall {
      assert FrameOverruns(f, d, hash, decode, cap);
    }
  }

  lemma Undescribed(f: seq<byte>, hash: Checksum, decode: Decoder, cap: nat)
    requires forall x :: !DescribedBy(f, x, hash)
    ensures (forall x, content :: !FrameContains(f, x, hash, decode, content)) && forall x :: !FrameOverruns(f, x, hash, decode, cap)
  {
    hide WalkFrom, AllDecode, Joined, TailHolds, DescribedBy, Overflows;
  }

  /** The frame decode. Unless the runtime fails it succeeds exactly on a frame
      whose content fits, and it never succeeds but by delivering that content.
      Its refusals are exact too: a declined frame is unsupported, a frame whose
      blocks decode to more than the capacity is too large whatever its tail says,
      and any other is corrupt. */
  method DecodeFrame(f: seq<byte>, hash: Checksum, decode: Decoder, out: array<byte>, cap: nat, env: Environment)
    returns (status: Status, bytesWritten: nat, ghost d: Descriptor, ghost issued: seq<Transfer>)
    requires DecoderInBounds(decode) && cap <= out.Length
    modifies out
    ensures status == Okay ==> bytesWritten <= cap && FrameContains(f, d, hash, decode, out[..bytesWritten])
    ensures status != Okay ==> bytesWritten == 0
    ensures Smooth(env) ==> (status == Okay <==> exists x, content :: FrameContains(f, x, hash, decode, content) && |content| <= cap)
    ensures Smooth(env) ==> (status == OutputTooSmall <==> exists x :: FrameOverruns(f, x, hash, decode, cap))
    ensures Smooth(env) ==> (status == Unsupported <==> Declined(f))
    ensures Smooth(env) ==> status == Okay || status == OutputTooSmall || status == Unsupported || status == CorruptInput
    ensures if exists x :: DescribedBy(f, x, hash)
            then DescribedBy(f, d, hash) && d.bodyOff <= |f| && status == FrameStatus(f, d, hash, decode, cap, env, issued)
            else status == if Declined(f) then Unsupported else CorruptInput
    ensures forall i :: cap <= i < out.Length ==> out[i] == old(out[i])
  {
    hide WalkFrom, AllDecode, Joined, DecoderInBounds, TailHolds, DescribedBy, Overflows, OldOrNew, FrameOverruns, FrameContains, Smooth, Carried, AssemblyFails, Declined, Issued, Accounted, CompressedBelow;
    bytesWritten, issued := 0, [];
    var desc;
    status, desc := Lz4ParseFrameDescriptor(f, hash);
    d := desc;
    if status != Okay {
      Undescribed(f, hash, decode, cap);
      return;
    }
    BlockMaxFits(f, d, hash);
    status, bytesWritten, issued := DecodeBody(f, desc, hash, decode, out, cap, env);
    if Smooth(env) {
      StatusMeans(f, d, hash, decode, cap, env, issued);
    }
  }

  /** The rest of a frame behind its descriptor. */
  method DecodeBody(f: seq<byte>, d: Descriptor, hash: Checksum, decode: Decoder, out: array<byte>, cap: nat, env: Environment)
    returns (status: Status, bytesWritten: nat, ghost issued: seq<Transfer>)
    requires DescribedBy(f, d, hash) && d.bodyOff <= |f| && d.blockMax < STORED_BIT && DecoderInBounds(decode) && cap <= out.Length
    modifies out
    ensures status == FrameStatus(f, d, hash, decode, cap, env, issued)
    ensures status == Okay ==> bytesWritten <= cap && FrameContains(f, d, hash, decode, out[..bytesWritten])
    ensures status != Okay ==> bytesWritten == 0
    ensures forall i :: cap <= i < out.Length ==> out[i] == old(out[i])
  {
    hide WalkFrom, AllDecode, Joined, DecoderInBounds, TailHolds, DescribedBy, Overflows, OldOrNew, Carried, AssemblyFails, Issued, Accounted, CompressedBelow;
    bytesWritten, issued := 0, [];
    var blocks, tailOff, total;
    status, blocks, tailOff := Lz4WalkFrameBlocks(f, d, hash);
    if status != Okay {
      return;
    }
    status, total, issued := DecodeAndAssemble(f, blocks, d.blockMax, decode, out, cap, env);
    if status != Okay {
      return;
    }
    status := Lz4VerifyFrameTail(f, d, tailOff, out[..total], hash);
    if status != Okay {
      return;
    }
    bytesWritten := total;
  }

  lemma OneFrame(f: seq<byte>, d: Descriptor, hash: Checksum)
    requires DescribedBy(f, d, hash)
    ensures forall x :: DescribedBy(f, x, hash) ==> x == d
  {
    forall x | DescribedBy(f, x, hash) ensures x == d {
      OneDescriptor(f, x, d, hash);
    }
  }

  lemma BlockMaxFits(f: seq<byte>, d: Descriptor, hash: Checksum)
    requires DescribedBy(f, d, hash)
    ensures d.blockMax < STORED_BIT
  {
  }

  /** Writing a frame and reading it back: the descriptor, the table of any
      payloads that decode, and a tail that tells the truth. */
  lemma FrameRoundTrip(d: Descriptor, code: nat, bs: seq<Payload>, rest: seq<byte>, hash: Checksum, decode: Decoder)
    returns (f: seq<byte>, content: seq<byte>)
    requires Describable(d, code) && (forall i :: 0 <= i < |bs| ==> Writable(bs[i], d)) && (forall x :: hash(x) < 0x1_0000_0000)
    requires forall i :: 0 <= i < |bs| ==> Decodes(bs[i].bytes, FrameBlock(0, |bs[i].bytes|, bs[i].uncompressed), d.blockMax, decode)
    requires |bs| <= UINT64_MAX / 0x40_0000
    ensures content == Concatenated(bs, d.blockMax, decode)
    ensures f == EncodeDescriptor(d, code, hash) + (EncodeTable(bs, d, hash) + ((if d.contentChecksum then Little(hash(content), 4) else []) + rest))
    ensures d.declared == (if d.contentSize then |content| else 0) ==> FrameContains(f, d, hash, decode, content)
  {
    hide EncodeDescriptor, EncodeTable, WalkFrom, Joined, Concatenated, Little, Overflows, AllDecode, TailHolds, Describable, Writable, Decodes, Number, At;
    content := Concatenated(bs, d.blockMax, decode);
    var tail := (if d.contentChecksum then Little(hash(content), 4) else []) + rest;
    f := EncodeDescriptor(d, code, hash) + (EncodeTable(bs, d, hash) + tail);
    WholeAt(f);
    AtConcat(f, 0, EncodeDescriptor(d, code, hash), EncodeTable(bs, d, hash) + tail);
    AtConcat(f, d.bodyOff, EncodeTable(bs, d, hash), tail);
    TableInverse(f, d.bodyOff, d, hash, bs);
    var t := WalkFrom(f, d.bodyOff, d, hash);
    TableDecodes(f, t.blocks, d, code, decode);
    TailTells(f, d, t.tail, content, rest, hash);
    assert DescribedBy(f, d, hash);
    WrittenFits(f, d, code, hash);
  }

  lemma WrittenFits(f: seq<byte>, d: Descriptor, code: nat, hash: Checksum)
    requires Describable(d, code) && At(f, 0, EncodeDescriptor(d, code, hash))
    ensures d.bodyOff <= |f|
  {
  }

  /** Payloads that decode by themselves decode in their frame. */
  lemma TableDecodes(f: seq<byte>, blocks: seq<FrameBlock>, d: Descriptor, code: nat, decode: Decoder)
    requires Describable(d, code) && |blocks| <= UINT64_MAX / 0x40_0000
    requires var bs := PayloadsOf(f, blocks);
             forall i :: 0 <= i < |bs| ==> Decodes(bs[i].bytes, FrameBlock(0, |bs[i].bytes|, bs[i].uncompressed), d.blockMax, decode)
    ensures !Overflows(blocks, d.blockMax) && AllDecode(f, blocks, d.blockMax, decode, |blocks|)
    ensures Joined(f, blocks, d.blockMax, decode, |blocks|) == Concatenated(PayloadsOf(f, blocks), d.blockMax, decode)
  {
    hide Joined, Concatenated, Decodes, PayloadOf;
    var bs := PayloadsOf(f, blocks);
    PayloadsJoin(f, blocks, d.blockMax, decode, |blocks|);
    PayloadsAt(f, blocks);
    assert bs[..|bs|] == bs;
    forall i | 0 <= i < |blocks| ensures Decodes(f, blocks[i], d.blockMax, decode) {
      assert bs[i] == PayloadOf(f, blocks[i]);
      OwnPayload(f, blocks[i], d.blockMax, decode);
    }
    FewBlocks(blocks, |blocks|);
    FitsSlots(|blocks|, d.blockMax);
  }

  lemma TailTells(f: seq<byte>, d: Descriptor, at: nat, content: seq<byte>, rest: seq<byte>, hash: Checksum)
    requires At(f, at, (if d.contentChecksum then Little(hash(content), 4) else []) + rest) && hash(content) < 0x1_0000_0000
    ensures d.declared == (if d.contentSize then |content| else 0) ==> TailHolds(f, d, at, content, hash)
  {
    hide Little, Number;
    if d.contentChecksum {
      AtConcat(f, at, Little(hash(content), 4), rest);
      Read32Inverse(f, at, hash(content));
    }
  }

  /** The payloads' own concatenation, with no frame around them. */
  function Concatenated(bs: seq<Payload>, blockMax: nat, decode: Decoder): seq<byte> {
    if bs == [] then []
    else
      var b := bs[|bs| - 1];
      Concatenated(bs[..|bs| - 1], blockMax, decode)
      + Plain(b.bytes, FrameBlock(0, |b.bytes|, b.uncompressed), blockMax, decode)
  }

  lemma {:induction false} PayloadsAt(f: seq<byte>, blocks: seq<FrameBlock>)
    ensures forall i :: 0 <= i < |blocks| ==> PayloadsOf(f, blocks)[i] == PayloadOf(f, blocks[i])
  {
    if blocks != [] { PayloadsAt(f, blocks[1..]); }
  }

  /** A block says the same in its frame and by itself. */
  lemma OwnPayload(f: seq<byte>, block: FrameBlock, blockMax: nat, decode: Decoder)
    ensures var b := PayloadOf(f, block);
            var own := FrameBlock(0, |b.bytes|, b.uncompressed);
            && Plain(b.bytes, own, blockMax, decode) == Plain(f, block, blockMax, decode)
            && Decodes(b.bytes, own, blockMax, decode) == Decodes(f, block, blockMax, decode)
  {
    var b := PayloadOf(f, block);
    assert PayloadOf(b.bytes, FrameBlock(0, |b.bytes|, b.uncompressed)) == b;
  }

  lemma {:induction false} PayloadsJoin(f: seq<byte>, blocks: seq<FrameBlock>, blockMax: nat, decode: Decoder, n: nat)
    requires n <= |blocks|
    ensures Joined(f, blocks, blockMax, decode, n) == Concatenated(PayloadsOf(f, blocks)[..n], blockMax, decode)
  {
    hide PayloadsOf, Plain, PayloadOf;
    if n > 0 {
      PayloadsJoin(f, blocks, blockMax, decode, n - 1);
      PayloadsAt(f, blocks);
      var bs := PayloadsOf(f, blocks);
      var b := bs[n - 1];
      assert bs[..n][..n - 1] == bs[..n - 1] && bs[..n][n - 1] == b;
      OwnPayload(f, blocks[n - 1], blockMax, decode);
    }
  }

  lemma WholeAt(f: seq<byte>)
    ensures At(f, 0, f)
  {
    assert f[0..0 + |f|] == f;
  }

  lemma {:induction false} FewBlocks(blocks: seq<FrameBlock>, n: nat)
    requires n <= |blocks|
    ensures CompressedBelow(blocks, n) <= n
  {
    if n > 0 { FewBlocks(blocks, n - 1); }
  }

  lemma FitsSlots(n: nat, blockMax: nat)
    requires n <= UINT64_MAX / 0x40_0000 && 1 <= blockMax <= 0x40_0000
    ensures n <= UINT64_MAX / blockMax
  {
    QuotientBounds(UINT64_MAX, 0x40_0000);
    QuotientBounds(UINT64_MAX, blockMax);
    MulMono(n, UINT64_MAX / 0x40_0000, 0x40_0000);
    MulMono(blockMax, 0x40_0000, n);
    LessByScale(n, UINT64_MAX / blockMax + 1, blockMax);
  }

  // ----- frames of encoded blocks -----

  /** A batch decoder of LZ4 blocks: on every stream that encodes a block within
      the capacity, what that block says. */
  ghost predicate DecodesBlocks(decode: Decoder) {
    forall src, cap, b :: Lz4Format.Accepted(src, cap, b) ==>
                            && Lz4Format.Reaches(0, b.sequences)
                            && decode(src, cap) == Outcome(Okay, Lz4Format.OutBytes(b), Lz4Format.Output([], b))
  }

  /** What an encoder puts into one block of a frame. */
  datatype Content = Raw(bytes: seq<byte>) | Packed(block: Lz4Format.Block)

  ghost predicate Fits(c: Content, blockMax: nat) {
    c.Packed? ==> Lz4Format.Encodable(0, c.block) && Lz4Format.OutBytes(c.block) <= blockMax
  }

  ghost function Written(c: Content): Payload {
    match c
    case Raw(bytes) => Payload(bytes, true)
    case Packed(b) => Payload(if Lz4Format.LegalBlock(b) then Lz4Format.Encode(b) else [], false)
  }

  ghost function Meaning(c: Content): seq<byte> {
    match c
    case Raw(bytes) => bytes
    case Packed(b) => if Lz4Format.Reaches(0, b.sequences) then Lz4Format.Output([], b) else []
  }

  ghost function WrittenAll(cs: seq<Content>): (bs: seq<Payload>)
    ensures |bs| == |cs| && forall i :: 0 <= i < |cs| ==> bs[i] == Written(cs[i])
  {
    if cs == [] then [] else WrittenAll(cs[..|cs| - 1]) + [Written(cs[|cs| - 1])]
  }

  ghost function MeaningAll(cs: seq<Content>): seq<byte> {
    if cs == [] then [] else MeaningAll(cs[..|cs| - 1]) + Meaning(cs[|cs| - 1])
  }

  lemma ContentDecodes(c: Content, blockMax: nat, decode: Decoder)
    requires DecodesBlocks(decode) && Fits(c, blockMax)
    ensures var b := Written(c);
            var own := FrameBlock(0, |b.bytes|, b.uncompressed);
            Decodes(b.bytes, own, blockMax, decode) && Plain(b.bytes, own, blockMax, decode) == Meaning(c)
  {
    var b := Written(c);
    assert PayloadOf(b.bytes, FrameBlock(0, |b.bytes|, b.uncompressed)) == b;
    if c.Packed? {
      var src := Lz4Format.Encode(c.block);
      assert src[0..] == src;
      Lz4Format.EncodableParses(src, blockMax, 0, 0, c.block);
      assert Lz4Format.Accepted(src, blockMax, c.block);
      var out := Lz4Format.Output([], c.block);
      assert out[..|out|] == out;
    }
  }

  lemma {:induction false} ContentsJoin(cs: seq<Content>, blockMax: nat, decode: Decoder)
    requires DecodesBlocks(decode) && forall i :: 0 <= i < |cs| ==> Fits(cs[i], blockMax)
    ensures Concatenated(WrittenAll(cs), blockMax, decode) == MeaningAll(cs)
  {
    hide Written, Meaning, Plain, Fits, DecodesBlocks;
    if cs != [] {
      var n := |cs| - 1;
      var bs := WrittenAll(cs);
      ContentsJoin(cs[..n], blockMax, decode);
      ContentDecodes(cs[n], blockMax, decode);
      assert bs[..n] == WrittenAll(cs[..n]);
    }
  }

  /** A frame of stored and encoded blocks contains, joined in order, what each of
      them holds or encodes. */
  lemma EncodedFrame(d: Descriptor, code: nat, cs: seq<Content>, rest: seq<byte>, hash: Checksum, decode: Decoder)
    returns (f: seq<byte>)
    requires Describable(d, code) && DecodesBlocks(decode) && (forall x :: hash(x) < 0x1_0000_0000)
    requires forall i :: 0 <= i < |cs| ==> Fits(cs[i], d.blockMax) && Writable(Written(cs[i]), d)
    requires |cs| <= UINT64_MAX / 0x40_0000
    requires d.declared == if d.contentSize then |MeaningAll(cs)| else 0
    ensures FrameContains(f, d, hash, decode, MeaningAll(cs))
    ensures EncodeDescriptor(d, code, hash) + EncodeTable(WrittenAll(cs), d, hash) <= f
  {
    hide Written, Meaning, Fits, DecodesBlocks, Concatenated, MeaningAll, FrameContains, Decodes, EncodeDescriptor, EncodeTable, Writable;
    var bs := WrittenAll(cs);
    forall i | 0 <= i < |bs| ensures Decodes(bs[i].bytes, FrameBlock(0, |bs[i].bytes|, bs[i].uncompressed), d.blockMax, decode) {
      ContentDecodes(cs[i], d.blockMax, decode);
    }
    ContentsJoin(cs, d.blockMax, decode);
    var content;
    f, content := FrameRoundTrip(d, code, bs, rest, hash, decode);
    var tail := (if d.contentChecksum then Little(hash(content), 4) else []) + rest;
    assert f == (EncodeDescriptor(d, code, hash) + EncodeTable(bs, d, hash)) + tail;
  }
}
