/**
 The block level of the audio stream: a ring of equally sized blocks with four wrapping positions and
 three counters, together with the readers' and writers' steps on it.

 `Step` is what the methods of the class in AudioStream.dfy are proved against; the lemmas here and in
 StreamFifo.dfy and StreamZeroCopy.dfy say what such steps are worth to a caller.
 */
module StreamRing {

  newtype Byte = x: int | 0 <= x < 256

  /** The contents of one block; its length is the ring's block size. */
  type Block = seq<Byte>

  /** The counters are `size_t`, 32 bits wide on the target. */
  const SIZE_MODULUS: nat := 0x1_0000_0000

  function SizeAdd(a: nat, b: nat): (sum: nat)
    ensures sum < SIZE_MODULUS && (a + b < SIZE_MODULUS ==> sum == a + b)
  {
    (a + b) % SIZE_MODULUS
  }

  function SizeSub(a: nat, b: nat): (difference: nat)
    ensures difference < SIZE_MODULUS && (b <= a < SIZE_MODULUS ==> difference == a - b)
    ensures a < b <= SIZE_MODULUS ==> difference == SIZE_MODULUS + a - b
  {
    (a - b) % SIZE_MODULUS
  }

  datatype Event = NoEvent | StreamFull | StreamHalfUsed | StreamEmpty | StreamOverflow | StreamUnderFlow

  /** What a returned span points to: a block of the ring, or the stream's own block of zeros. */
  datatype Span = NoSpan | NullSpan | SlotSpan(slot: nat)

  /** The outcome of a step: its return value, the one event it broadcasts, and the data the caller gets to see. */
  datatype Reply = Reply(ok: bool, event: Event, span: Span, data: Block)

  datatype Op =
    | Push(data: Block)
    | PushNull
    | Pop(size: nat, into: Span)           // `into`: a span the stream handed out earlier, or none of its memory
    | Peek
    | Consume
    | Unpeek
    | Reserve
    | Commit
    | Release
    | Reset
    | WriteThrough(slot: nat, data: Block)  // the caller fills a span it holds

  datatype Ring = Ring(
    blockSize: nat,
    slots: seq<Block>,
    silence: Block,
    dataStart: nat,
    dataEnd: nat,
    peekPosition: nat,
    writeReservation: nat,
    used: nat,
    peeked: nat,
    reserved: nat)
  {
    function Count(): nat {
      |slots|
    }

    /** What holds of any stream whatever its callers did. */
    ghost predicate WellFormed() {
      && 0 < blockSize
      && 0 < |slots| < SIZE_MODULUS
      && (forall i | 0 <= i < |slots| :: |slots[i]| == blockSize)
      && |silence| == blockSize
      && dataStart < |slots| && dataEnd < |slots| && peekPosition < |slots| && writeReservation < |slots|
      && used < SIZE_MODULUS && peeked < SIZE_MODULUS && reserved < SIZE_MODULUS
    }

    /** The block `k` places after the oldest unread one, wrapping at most once. */
    function At(k: nat): (slot: nat)
      requires dataStart < |slots| && k <= |slots|
      ensures slot < |slots|
    {
      if dataStart + k < |slots| then dataStart + k else dataStart + k - |slots|
    }

    /** The block behind the null span is still all zeros. */
    ghost predicate Silent() {
      silence == NullBlock(blockSize)
    }

    /** The positions agree with the counters. */
    ghost predicate Coherent() {
      && WellFormed()
      && peeked <= used
      && used + reserved <= |slots|
      && dataEnd == At(used)
      && peekPosition == At(peeked)
      && writeReservation == At(used + reserved)
    }

    /** The slots handed out by `reserve` and not yet committed or released, in the order they were handed out. */
    function Outstanding(): (spans: seq<nat>)
      requires dataStart < |slots| && used + reserved <= |slots|
      ensures |spans| == reserved
    {
      seq<nat>(reserved, k requires 0 <= k < reserved => At(used + 1 + k))
    }

    /** The committed blocks no reader has consumed yet, oldest first. */
    ghost function Unread(): (blocks: seq<Block>)
      requires Coherent()
      ensures |blocks| == used
    {
      seq(used, k requires 0 <= k < used => slots[At(k)])
    }
  }

  function NullBlock(size: nat): (block: Block)
    ensures |block| == size && forall i | 0 <= i < size :: block[i] == 0
  {
    seq(size, _ => 0)
  }

  /** A stream just built, or just reset, over the given blocks. */
  function Fresh(blockSize: nat, slots: seq<Block>): Ring {
    Ring(blockSize, slots, NullBlock(blockSize), 0, 0, 0, 0, 0, 0, 0)
  }

  /** One step of the block iterator, as its prefix increment does it. */
  function Next(slot: nat, count: nat): (next: nat)
    requires slot < count
    ensures next < count
  {
    if slot + 1 == count then 0 else slot + 1
  }

  function StateEvent(used: nat, count: nat): Event {
    if used == count / 2 then StreamHalfUsed
    else if used == 0 then StreamEmpty
    else if used == count then StreamFull
    else NoEvent
  }

  function Quiet(ok: bool, event: Event): Reply {
    Reply(ok, event, NoSpan, [])
  }

  predicate Legal(count: nat, blockSize: nat, op: Op) {
    && (op.WriteThrough? ==> op.slot < count && |op.data| == blockSize)
    && (op.Pop? && op.into.SlotSpan? ==> op.into.slot < count)
  }

  function PushStep(r: Ring, data: Block): (Ring, Reply)
    requires r.WellFormed()
  {
    if |data| != r.blockSize || r.dataEnd != r.writeReservation then
      (r, Quiet(false, NoEvent))
    else if r.used == r.Count() then
      (r, Quiet(false, StreamOverflow))
    else
      var next := Next(r.dataEnd, r.Count());
      var used := SizeAdd(r.used, 1);
      (r.(slots := r.slots[r.dataEnd := data], dataEnd := next, writeReservation := next, used := used),
       Quiet(true, StateEvent(used, r.Count())))
  }

  function PopStep(r: Ring, size: nat, into: Span): (Ring, Reply)
    requires r.WellFormed() && (into.SlotSpan? ==> into.slot < r.Count())
  {
    if size != r.blockSize || r.dataStart != r.peekPosition then
      (r, Quiet(false, NoEvent))
    else if r.used == 0 then
      (r, Reply(false, StreamUnderFlow, NullSpan, r.silence))
    else
      var next := Next(r.dataStart, r.Count());
      var used := SizeSub(r.used, 1);
      var data := r.slots[r.dataStart];
      (r.(dataStart := next, peekPosition := next, used := used,
          slots := if into.SlotSpan? then r.slots[into.slot := data] else r.slots,
          silence := if into.NullSpan? then data else r.silence),
       Reply(true, StateEvent(used, r.Count()), NoSpan, data))
  }

  function PeekStep(r: Ring): (Ring, Reply)
    requires r.WellFormed()
  {
    if r.peeked < r.used then
      (r.(peekPosition := Next(r.peekPosition, r.Count()), peeked := SizeAdd(r.peeked, 1)),
       Reply(true, NoEvent, SlotSpan(r.peekPosition), r.slots[r.peekPosition]))
    else
      (r, Reply(false, StreamUnderFlow, NullSpan, r.silence))
  }

  function ConsumeStep(r: Ring): (Ring, Reply)
    requires r.WellFormed()
  {
    var used := SizeSub(r.used, r.peeked);
    (r.(used := used, peeked := 0, dataStart := r.peekPosition), Quiet(true, StateEvent(used, r.Count())))
  }

  function ReserveStep(r: Ring): (Ring, Reply)
    requires r.WellFormed()
  {
    if SizeSub(r.Count(), r.used) > r.reserved then
      var next := Next(r.writeReservation, r.Count());
      (r.(writeReservation := next, reserved := SizeAdd(r.reserved, 1)),
       Reply(true, NoEvent, SlotSpan(next), r.slots[next]))
    else
      var next := Next(r.peekPosition, r.Count());
      (r.(used := 0, dataEnd := r.peekPosition, reserved := 1, writeReservation := next),
       Reply(false, StreamOverflow, SlotSpan(next), r.slots[next]))
  }

  function CommitStep(r: Ring): (Ring, Reply)
    requires r.WellFormed()
  {
    var used := SizeAdd(r.used, r.reserved);
    (r.(used := used, reserved := 0, dataEnd := r.writeReservation), Quiet(true, StateEvent(used, r.Count())))
  }

  function Step(r: Ring, op: Op): (Ring, Reply)
    requires r.WellFormed() && Legal(r.Count(), r.blockSize, op)
  {
    match op
    case Push(data) => PushStep(r, data)
    case PushNull => PushStep(r, r.silence)
    case Pop(size, into) => PopStep(r, size, into)
    case Peek => PeekStep(r)
    case Consume => ConsumeStep(r)
    case Unpeek => (r.(peekPosition := r.dataStart, peeked := 0), Quiet(true, NoEvent))
    case Reserve => ReserveStep(r)
    case Commit => CommitStep(r)
    case Release => (r.(reserved := 0, writeReservation := r.dataEnd), Quiet(true, NoEvent))
    case Reset => (Fresh(r.blockSize, r.slots), Quiet(true, NoEvent))
    case WriteThrough(slot, data) => (r.(slots := r.slots[slot := data]), Quiet(true, NoEvent))
  }

  /** No call sequence takes a stream out of bounds or resizes a block. */
  lemma StepWellFormed(r: Ring, op: Op)
    requires r.WellFormed() && Legal(r.Count(), r.blockSize, op)
    ensures
      var after := Step(r, op).0;
      after.WellFormed() && after.Count() == r.Count() && after.blockSize == r.blockSize
  {
  }

  // ---------------------------------------------------------------------------------------------
  // When the positions agree with the counters

  /**
   The calls the position tests cannot judge. A lap of N reservations, or of N peeks, leaves the two
   compared positions equal, so `push` and `pop` go ahead; and the overflow branch of `reserve` forgets
   the used blocks but not the peeked ones.
   */
  predicate LapSafe(r: Ring, op: Op) {
    match op
    case Push(data) => |data| != r.blockSize || r.reserved != r.Count()
    case PushNull => r.reserved != r.Count()
    case Pop(size, _) => size != r.blockSize || r.peeked != r.Count()
    case Reserve => r.used + r.reserved < r.Count() || r.peeked == 0
    case _ => true
  }

  /** A call keeps positions and counters in agreement exactly when it is lap safe. */
  lemma CoherentIffLapSafe(r: Ring, op: Op)
    requires r.Coherent() && Legal(r.Count(), r.blockSize, op)
    ensures Step(r, op).0.Coherent() <==> LapSafe(r, op)
  {
    match op
    case Push(data) => PushCoherence(r, data);
    case PushNull => PushCoherence(r, r.silence);
    case Pop(size, into) => PopCoherence(r, size, into);
    case Peek => PeekCoherence(r);
    case Consume => ConsumeCoherence(r);
    case Reserve => ReserveCoherence(r);
    case Commit => CommitCoherence(r);
    case _ => StepWellFormed(r, op);
  }

  lemma PushCoherence(r: Ring, data: Block)
    requires r.Coherent()
    ensures PushStep(r, data).0.Coherent() <==> LapSafe(r, Push(data))
  {
  }

  lemma PopCoherence(r: Ring, size: nat, into: Span)
    requires r.Coherent() && (into.SlotSpan? ==> into.slot < r.Count())
    ensures PopStep(r, size, into).0.Coherent() <==> LapSafe(r, Pop(size, into))
  {
  }

  lemma PeekCoherence(r: Ring)
    requires r.Coherent()
    ensures PeekStep(r).0.Coherent()
  {
  }

  lemma ConsumeCoherence(r: Ring)
    requires r.Coherent()
    ensures ConsumeStep(r).0.Coherent()
  {
  }

  lemma ReserveCoherence(r: Ring)
    requires r.Coherent()
    ensures ReserveStep(r).0.Coherent() <==> LapSafe(r, Reserve)
  {
  }

  lemma CommitCoherence(r: Ring)
    requires r.Coherent()
    ensures CommitStep(r).0.Coherent()
  {
  }

  /** Only a successful pop into the null span can break the silence, and does so unless it pops silence. */
  lemma SilentUnlessPoppedInto(r: Ring, op: Op)
    requires r.Coherent() && r.Silent() && Legal(r.Count(), r.blockSize, op)
    ensures
      var (after, reply) := Step(r, op);
      after.Silent() <==> !(op.Pop? && op.into.NullSpan? && reply.ok && r.slots[r.dataStart] != r.silence)
  {
    StepWellFormed(r, op);
  }

  function Run(r: Ring, ops: seq<Op>): (result: (Ring, seq<Reply>))
    requires r.WellFormed() && forall op | op in ops :: Legal(r.Count(), r.blockSize, op)
    ensures |result.1| == |ops|
    ensures result.0.WellFormed() && result.0.Count() == r.Count() && result.0.blockSize == r.blockSize
    decreases |ops|
  {
    if ops == [] then (r, [])
    else
      assert ops[0] in ops;
      StepWellFormed(r, ops[0]);
      var (mid, reply) := Step(r, ops[0]);
      var (last, replies) := Run(mid, ops[1..]);
      (last, [reply] + replies)
  }

  /** Every call of the run is lap safe in the state it meets. */
  predicate LapSafeRun(r: Ring, ops: seq<Op>)
    requires r.WellFormed() && forall op | op in ops :: Legal(r.Count(), r.blockSize, op)
    decreases |ops|
  {
    ops == [] ||
    (assert ops[0] in ops;
     StepWellFormed(r, ops[0]);
     LapSafe(r, ops[0]) && LapSafeRun(Step(r, ops[0]).0, ops[1..]))
  }

  /** On every run the positions agree with the counters throughout exactly when every call is lap safe. */
  lemma {:induction false} CoherentThroughoutIffLapSafe(r: Ring, ops: seq<Op>)
    requires r.Coherent() && forall op | op in ops :: Legal(r.Count(), r.blockSize, op)
    ensures LapSafeRun(r, ops) <==> forall n | 0 <= n <= |ops| :: Run(r, ops[..n]).0.Coherent()
    decreases |ops|
  {
    if ops == [] {
      assert ops[..0] == [];
    } else {
      assert ops[0] in ops;
      StepWellFormed(r, ops[0]);
      CoherentIffLapSafe(r, ops[0]);
      var mid := Step(r, ops[0]).0;
      assert ops[..0] == [];
      forall n | 0 <= n <= |ops[1..]|
        ensures Run(r, ops[..n + 1]).0 == Run(mid, ops[1..][..n]).0
      {
        RunHead(r, ops[..n + 1]);
        assert ops[..n + 1][1..] == ops[1..][..n];
      }
      assert Run(mid, ops[1..][..0]).0 == mid by { assert ops[1..][..0] == []; }
      if mid.Coherent() {
        CoherentThroughoutIffLapSafe(mid, ops[1..]);
        forall n | 0 < n <= |ops|
          ensures Run(r, ops[..n]).0 == Run(mid, ops[1..][..n - 1]).0
        {
          assert n - 1 + 1 == n;
        }
      } else {
        assert !Run(r, ops[..0 + 1]).0.Coherent();
      }
    }
  }

  lemma {:induction false} RunHead(r: Ring, ops: seq<Op>)
    requires r.WellFormed() && forall op | op in ops :: Legal(r.Count(), r.blockSize, op)
    requires ops != []
    ensures ops[0] in ops && Step(r, ops[0]).0.WellFormed()
    ensures
      var (last, replies) := Run(Step(r, ops[0]).0, ops[1..]);
      Run(r, ops) == (last, [Step(r, ops[0]).1] + replies)
  {
    assert ops[0] in ops;
    StepWellFormed(r, ops[0]);
  }

  // ---------------------------------------------------------------------------------------------
  // Events

  /** The calls that put blocks in or take blocks out. */
  predicate MovesBlocks(op: Op) {
    op.Push? || op.PushNull? || op.Pop? || op.Consume? || op.Commit?
  }

  /**
   What listeners are told. Having moved blocks, a stream of at least two blocks says that it is half used, empty
   or full exactly when it is; a stream of one block is half used when it is empty, and does not say that it is
   empty. An overflow is a push into a full stream or a reservation with nothing left to reserve, an underflow is
   a pop of an empty stream or a peek with nothing left to peek.
   */
  ghost predicate TellsRight(r: Ring, op: Op, after: Ring, reply: Reply) {
    var moved := MovesBlocks(op) && reply.ok;
    && (reply.event == StreamHalfUsed <==> moved && after.used == r.Count() / 2)
    && (reply.event == StreamEmpty <==> moved && after.used == 0 && r.Count() >= 2)
    && (reply.event == StreamFull <==> moved && after.used == r.Count())
    && (reply.event == StreamOverflow <==>
          || (op.Push? && |op.data| == r.blockSize && r.reserved == 0 && r.used == r.Count())
          || (op.PushNull? && r.reserved == 0 && r.used == r.Count())
          || (op.Reserve? && r.used + r.reserved == r.Count()))
    && (reply.event == StreamUnderFlow <==>
          || (op.Pop? && op.size == r.blockSize && r.peeked == 0 && r.used == 0)
          || (op.Peek? && r.peeked == r.used))
  }

  lemma StepTellsRight(r: Ring, op: Op)
    requires r.Coherent() && Legal(r.Count(), r.blockSize, op) && LapSafe(r, op)
    ensures TellsRight(r, op, Step(r, op).0, Step(r, op).1)
  {
    hide Ring.Unread, Ring.Outstanding;
    match op
    case Push(data) => PushTellsRight(r, data, op);
    case PushNull => PushTellsRight(r, r.silence, op);
    case _ =>
  }

  lemma PushTellsRight(r: Ring, data: Block, op: Op)
    requires r.Coherent() && LapSafe(r, op) && (op == Push(data) || (op == PushNull && data == r.silence))
    ensures TellsRight(r, op, PushStep(r, data).0, PushStep(r, data).1)
  {
    hide Ring.Unread, Ring.Outstanding;
    if r.reserved > 0 {
      SameSlotIffFullLap(r, r.used, r.used + r.reserved);
    }
  }

  /** On every lap-safe run every single call tells its listeners right. */
  lemma {:induction false} RunTellsRight(r: Ring, ops: seq<Op>, k: nat)
    requires r.Coherent() && (forall op | op in ops :: Legal(r.Count(), r.blockSize, op)) && LapSafeRun(r, ops)
    requires k < |ops|
    ensures TellsRight(Run(r, ops[..k]).0, ops[k], Run(r, ops[..k + 1]).0, Run(r, ops).1[k])
    decreases k
  {
    assert r.WellFormed();
    hide TellsRight, Step, LapSafe, Ring.Coherent, Run;
    RunHead(r, ops);
    CoherentIffLapSafe(r, ops[0]);
    StepWellFormed(r, ops[0]);
    RunTail(r, ops, k + 1);
    var mid := Step(r, ops[0]).0;
    if k == 0 {
      RunNothing(r);
      RunNothing(mid);
      assert ops[..0] == [] && ops[1..][..0] == [];
      StepTellsRight(r, ops[0]);
    } else {
      RunTail(r, ops, k);
      RunTellsRight(mid, ops[1..], k - 1);
      assert ops[k] == ops[1..][k - 1];
    }
  }

  lemma {:induction false} RunNothing(r: Ring)
    requires r.WellFormed()
    ensures Run(r, []) == (r, [])
  {
  }

  /** The state after some calls is the state after the others from where the first one leads. */
  lemma {:induction false} RunTail(r: Ring, ops: seq<Op>, n: nat)
    requires r.WellFormed() && forall op | op in ops :: Legal(r.Count(), r.blockSize, op)
    requires 0 < n <= |ops|
    ensures ops[0] in ops && Step(r, ops[0]).0.WellFormed()
    ensures
      var mid := Step(r, ops[0]).0;
      && mid.Count() == r.Count() && mid.blockSize == r.blockSize
      && Run(r, ops[..n]).0 == Run(mid, ops[1..][..n - 1]).0
  {
    assert ops[0] in ops;
    StepWellFormed(r, ops[0]);
    hide Ring.WellFormed, Step, Legal;
    RunHead(r, ops[..n]);
    assert ops[..n][1..] == ops[1..][..n - 1];
  }

  /**
   A reservation hands out the block it reserves, which is then the last of the outstanding ones, whether there was
   room for it or the used blocks had to go; and it says which.
   */
  lemma ReserveHandsOutLast(r: Ring)
    requires r.Coherent() && LapSafe(r, Reserve)
    ensures
      var (after, reply) := ReserveStep(r);
      && after.Coherent() && after.reserved > 0
      && reply.span == SlotSpan(after.Outstanding()[after.reserved - 1])
      && reply.data == after.slots[reply.span.slot]
      && (reply.ok <==> r.used + r.reserved < r.Count())
      && (reply.ok ==> after.Unread() == r.Unread() && after.reserved == r.reserved + 1)
      && (!reply.ok ==> after.Unread() == [] && after.reserved == 1 && after.dataStart == r.dataStart)
  {
    ReserveCoherence(r);
    var after := ReserveStep(r).0;
    if r.used + r.reserved < r.Count() {
      SuffixOfUnread(r, after);
    }
  }

  // ---------------------------------------------------------------------------------------------
  // Reserved blocks and unread blocks

  /**
   Filling the k-th outstanding reservation (counting from 1) can spoil an unread block exactly when the
   reservation is the one that completes the lap.
   */
  lemma FillSparesUnreadIffNotFullLap(r: Ring, k: nat)
    requires r.Coherent() && 1 <= k <= r.reserved
    ensures
      (forall data: Block | |data| == r.blockSize ::
        Step(r, WriteThrough(r.At(r.used + k), data)).0.Unread() == r.Unread())
      <==> !(0 < r.used && r.used + k == r.Count())
  {
    var slot := r.At(r.used + k);
    if 0 < r.used && r.used + k == r.Count() {
      var data := FullLapFillSpoils(r);
      assert slot == r.At(0);
    } else {
      forall data: Block | |data| == r.blockSize
        ensures Step(r, WriteThrough(slot, data)).0.Unread() == r.Unread()
      {
        forall j | 0 <= j < r.used
          ensures r.At(j) != slot
        {
          SameSlotIffFullLap(r, j, r.used + k);
        }
        OverwriteElsewhere(r, slot, data);
      }
    }
  }

  lemma FullLapFillSpoils(r: Ring) returns (data: Block)
    requires r.Coherent() && 0 < r.used
    ensures |data| == r.blockSize && Step(r, WriteThrough(r.At(0), data)).0.Coherent()
    ensures Step(r, WriteThrough(r.At(0), data)).0.Unread() != r.Unread()
  {
    var was := r.slots[r.At(0)];
    data := was[0 := if was[0] == 0 then 1 else 0];
    assert data[0] != was[0];
    var after := Step(r, WriteThrough(r.At(0), data)).0;
    CoherentIffLapSafe(r, WriteThrough(r.At(0), data));
    assert after.Unread()[0] == data;
    assert r.Unread()[0] == was;
  }

  /** Two places of the window share a slot only when they are a whole lap apart. */
  lemma SameSlotIffFullLap(r: Ring, i: nat, j: nat)
    requires r.WellFormed() && i < j <= r.Count()
    ensures r.At(i) == r.At(j) <==> i == 0 && j == r.Count()
  {
  }

  /** Writing a block moves nothing. */
  lemma OverwriteMovesNothing(r: Ring, slot: nat, data: Block)
    requires r.Coherent() && slot < r.Count() && |data| == r.blockSize
    ensures
      var after := Step(r, WriteThrough(slot, data)).0;
      && after.Coherent() && after.Outstanding() == r.Outstanding()
      && forall k | 0 <= k <= r.Count() :: after.At(k) == r.At(k)
  {
    hide Ring.Unread;
    var after := Step(r, WriteThrough(slot, data)).0;
    forall k | 0 <= k <= r.Count()
      ensures after.At(k) == r.At(k)
    {
    }
    assert after.Coherent();
    forall k | 0 <= k < r.reserved
      ensures after.Outstanding()[k] == r.Outstanding()[k]
    {
      assert after.At(r.used + 1 + k) == r.At(r.used + 1 + k);
    }
  }

  lemma OverwriteElsewhere(r: Ring, slot: nat, data: Block)
    requires r.Coherent() && slot < r.Count() && |data| == r.blockSize
    requires forall j | 0 <= j < r.used :: r.At(j) != slot
    ensures
      var after := Step(r, WriteThrough(slot, data)).0;
      && after.Coherent()
      && after.Unread() == r.Unread() && after.Outstanding() == r.Outstanding()
  {
    hide Ring.Outstanding;
    var after := Step(r, WriteThrough(slot, data)).0;
    OverwriteMovesNothing(r, slot, data);
    forall j | 0 <= j < r.used
      ensures after.Unread()[j] == r.Unread()[j]
    {
      assert after.At(j) == r.At(j);
    }
  }

  /** A pop into the stream's own memory does not land on a block that is left unread. */
  predicate SparesUnread(r: Ring, op: Op)
    requires r.WellFormed()
  {
    op.Pop? && op.into.SlotSpan? && 0 < r.used ==>
      forall k | 1 <= k < r.used && k <= r.Count() :: r.At(k) != op.into.slot
  }

  /** Popping into a slot is popping, and then filling the slot. */
  lemma PopIntoSlot(r: Ring, size: nat, slot: nat)
    requires r.Coherent() && slot < r.Count() && PopStep(r, size, SlotSpan(slot)).1.ok
    ensures PopStep(r, size, NoSpan).0.WellFormed()
    ensures PopStep(r, size, SlotSpan(slot)).0
         == Step(PopStep(r, size, NoSpan).0, WriteThrough(slot, r.slots[r.dataStart])).0
  {
    StepWellFormed(r, Pop(size, NoSpan));
  }

  /** It leaves the rest of the blocks as they were exactly when the slot holds none of them, or the same block. */
  lemma PopIntoSlotSparesUnreadIff(r: Ring, slot: nat)
    requires r.Coherent() && slot < r.Count() && 0 < r.used && r.peeked == 0
    ensures
      var after := PopStep(r, r.blockSize, SlotSpan(slot)).0;
      && after.Coherent()
      && (after.Unread() == r.Unread()[1..]
          <==> forall k | 1 <= k < r.used :: r.At(k) != slot || r.slots[r.At(k)] == r.slots[r.dataStart])
  {
    PopCoherence(r, r.blockSize, SlotSpan(slot));
    PopIntoTakesOne(r, slot);
    UnreadIsSlots(r);
    hide Ring.At, Ring.Unread, Ring.Coherent, PopStep;
    var after := PopStep(r, r.blockSize, SlotSpan(slot)).0;
    forall k | 0 <= k < after.used
      ensures after.Unread()[k] == if r.At(k + 1) == slot then r.slots[r.dataStart] else r.slots[r.At(k + 1)]
    {
      UnreadAfterPopInto(r, slot, k);
    }
    if after.Unread() == r.Unread()[1..] {
      forall k | 1 <= k < r.used
        ensures r.At(k) != slot || r.slots[r.At(k)] == r.slots[r.dataStart]
      {
        assert after.Unread()[k - 1] == r.Unread()[1..][k - 1] == r.Unread()[k];
      }
    } else {
      var k :| 0 <= k < after.used && after.Unread()[k] != r.Unread()[1..][k];
      assert r.Unread()[1..][k] == r.Unread()[k + 1];
    }
  }

  lemma PopIntoTakesOne(r: Ring, slot: nat)
    requires r.Coherent() && slot < r.Count() && 0 < r.used && r.peeked == 0
    ensures PopStep(r, r.blockSize, SlotSpan(slot)).0.used == r.used - 1 && r.dataStart < r.Count()
    ensures r.peeked != r.Count() && forall k | 0 <= k < r.used :: r.At(k) < r.Count()
  {
    hide Ring.Unread, Ring.Outstanding;
  }

  lemma UnreadIsSlots(r: Ring)
    requires r.Coherent()
    ensures forall k | 0 <= k < r.used :: r.Unread()[k] == r.slots[r.At(k)]
  {
  }

  lemma UnreadAfterPopInto(r: Ring, slot: nat, k: nat)
    requires r.Coherent() && slot < r.Count() && r.peeked == 0 && k + 1 < r.used
    requires PopStep(r, r.blockSize, SlotSpan(slot)).0.Coherent()
    ensures
      var after := PopStep(r, r.blockSize, SlotSpan(slot)).0;
      && k < after.used
      && after.Unread()[k] == if r.At(k + 1) == slot then r.slots[r.dataStart] else r.slots[r.At(k + 1)]
  {
    var after := PopStep(r, r.blockSize, SlotSpan(slot)).0;
    assert after.At(k) == r.At(k + 1);
  }

  /** A reader's step, or a writer filling a reservation that is outstanding. */
  predicate ReadsOrFills(r: Ring, op: Op)
    requires r.WellFormed()
  {
    (op.Pop? && SparesUnread(r, op)) || op.Peek? || op.Consume? || op.Unpeek?
    || (op.WriteThrough? && r.used + r.reserved <= r.Count() && op.slot in r.Outstanding())
  }

  predicate ReadsOrFillsRun(r: Ring, ops: seq<Op>)
    requires r.WellFormed() && forall op | op in ops :: Legal(r.Count(), r.blockSize, op)
    decreases |ops|
  {
    ops == [] ||
    (assert ops[0] in ops;
     StepWellFormed(r, ops[0]);
     ReadsOrFills(r, ops[0]) && ReadsOrFillsRun(Step(r, ops[0]).0, ops[1..]))
  }

  /** While the lap is not complete, readers may interleave with fills in any way: what is still unread is
   a suffix of what was unread, byte for byte, and the outstanding reservations stay where they were. */
  lemma {:induction false} InterleavedFillsSpareUnread(r: Ring, ops: seq<Op>)
    requires r.Coherent() && r.used + r.reserved < r.Count()
    requires (forall op | op in ops :: Legal(r.Count(), r.blockSize, op)) && ReadsOrFillsRun(r, ops)
    ensures
      var after := Run(r, ops).0;
      && after.Coherent() && after.used <= r.used
      && after.Unread() == r.Unread()[r.used - after.used..]
      && after.Outstanding() == r.Outstanding()
    decreases |ops|
  {
    if ops == [] {
    } else {
      hide Ring.WellFormed, ReadsOrFills, Ring.Unread, Ring.Outstanding, Step;
      RunHead(r, ops);
      var mid := Step(r, ops[0]).0;
      StepWellFormed(r, ops[0]);
      ReaderStepKeepsSuffix(r, ops[0]);
      InterleavedFillsSpareUnread(mid, ops[1..]);
      var after := Run(r, ops).0;
      assert mid.Unread()[mid.used - after.used..] == r.Unread()[r.used - mid.used..][mid.used - after.used..];
    }
  }

  lemma ReaderStepKeepsSuffix(r: Ring, op: Op)
    requires r.Coherent() && r.used + r.reserved < r.Count()
    requires Legal(r.Count(), r.blockSize, op) && ReadsOrFills(r, op)
    ensures
      var after := Step(r, op).0;
      && after.Coherent() && after.used <= r.used
      && after.Unread() == r.Unread()[r.used - after.used..]
      && after.Outstanding() == r.Outstanding()
  {
    if op.WriteThrough? {
      var k :| 0 <= k < r.reserved && op.slot == r.Outstanding()[k];
      forall j | 0 <= j < r.used
        ensures r.At(j) != op.slot
      {
        SameSlotIffFullLap(r, j, r.used + 1 + k);
      }
      OverwriteElsewhere(r, op.slot, op.data);
    } else if op.Pop? && op.into.SlotSpan? && Step(r, op).1.ok {
      PopIntoSlotKeepsSuffix(r, op.size, op.into.slot);
    } else {
      CoherentIffLapSafe(r, op);
      ReaderStepMoves(r, op);
      SuffixOfWindow(r, Step(r, op).0);
    }
  }

  lemma PopIntoSlotKeepsSuffix(r: Ring, size: nat, slot: nat)
    requires r.Coherent() && slot < r.Count() && LapSafe(r, Pop(size, SlotSpan(slot)))
    requires PopStep(r, size, SlotSpan(slot)).1.ok && SparesUnread(r, Pop(size, SlotSpan(slot)))
    ensures
      var after := PopStep(r, size, SlotSpan(slot)).0;
      && after.Coherent() && after.used == r.used - 1
      && after.Unread() == r.Unread()[1..] && after.Outstanding() == r.Outstanding()
  {
    hide Ring.Unread, Ring.Outstanding;
    var mid := PopStep(r, size, NoSpan).0;
    PopCoherence(r, size, NoSpan);
    SuffixOfWindow(r, mid);
    PopIntoSlot(r, size, slot);
    forall j | 0 <= j < mid.used
      ensures mid.At(j) != slot
    {
      assert mid.At(j) == r.At(j + 1);
    }
    OverwriteElsewhere(mid, slot, r.slots[r.dataStart]);
  }

  lemma SuffixOfWindow(r: Ring, after: Ring)
    requires r.Coherent() && after.Coherent()
    requires after.slots == r.slots && after.reserved == r.reserved && after.used <= r.used
    requires after.dataStart == r.At(r.used - after.used)
    ensures after.Unread() == r.Unread()[r.used - after.used..]
    ensures after.Outstanding() == r.Outstanding()
  {
    hide Ring.Unread, Ring.Outstanding;
    SuffixOfUnread(r, after);
    SameOutstanding(r, after);
  }

  lemma SuffixOfUnread(r: Ring, after: Ring)
    requires r.Coherent() && after.Coherent()
    requires after.slots == r.slots && after.used <= r.used && after.dataStart == r.At(r.used - after.used)
    ensures after.Unread() == r.Unread()[r.used - after.used..]
  {
    var gone := r.used - after.used;
    forall j | 0 <= j < after.used
      ensures after.Unread()[j] == r.Unread()[gone + j]
    {
      assert after.At(j) == r.At(gone + j);
    }
  }

  lemma SameOutstanding(r: Ring, after: Ring)
    requires r.Coherent() && after.Coherent()
    requires after.Count() == r.Count() && after.reserved == r.reserved && after.used <= r.used
    requires after.dataStart == r.At(r.used - after.used)
    ensures after.Outstanding() == r.Outstanding()
  {
    forall k | 0 <= k < r.reserved
      ensures after.Outstanding()[k] == r.Outstanding()[k]
    {
      assert after.At(after.used + 1 + k) == r.At(r.used + 1 + k);
    }
  }

  /** How far a reader's step moves the start of the unread blocks. */
  lemma ReaderStepMoves(r: Ring, op: Op)
    requires r.Coherent() && Legal(r.Count(), r.blockSize, op) && LapSafe(r, op)
    requires (op.Pop? && !(op.into.SlotSpan? && Step(r, op).1.ok)) || op.Peek? || op.Consume? || op.Unpeek?
    ensures
      var after := Step(r, op).0;
      && after.slots == r.slots && after.reserved == r.reserved && after.blockSize == r.blockSize
      && after.used <= r.used && after.dataStart == r.At(r.used - after.used)
  {
  }
}
